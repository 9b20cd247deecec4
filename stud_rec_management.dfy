/** The in-memory student record store of StudRecManagement.java: a list of
    mutable `Student` objects with find, add, delete and update. Messages the
    Java code prints or returns become `Outcome` tags. */
module StudRecManagement {
  import JavaString

  datatype Option<+T> = None | Some(value: T)

  /** Java's `int`, the type of `marks` (Scanner.nextInt only yields these). */
  newtype int32 = x: int | -0x8000_0000 <= x < 0x8000_0000

  /** The two strings the Java code stores in `examStatus`. */
  datatype ExamStatus = Pass | Fail

  /** The one rule of the domain: strictly more than 35 marks passes. */
  function Status(marks: int32): ExamStatus {
    if marks > 35 then Pass else Fail
  }

  /** The result of an operation, in place of the message the Java code prints
      or returns. */
  datatype Outcome =
    | Added(status: ExamStatus)
    | Updated(status: ExamStatus)
    | Deleted
    | NameRequired
    | DuplicateId
    | NotFound

  /** A Java `String` reference that may be null. */
  type JString = Option<string>

  /** The add-time name check: null, or nothing left after `trim()`. That
      is the same as a null name or one made only of characters up to
      U+0020. */
  function IsBlankName(name: JString): (r: bool)
    ensures r <==> name.None? || JavaString.AllTrimmable(name.value)
  {
    if name.None? then true
    else
      JavaString.TrimEmptyIffAllTrimmable(name.value);
      JavaString.Trim(name.value) == []
  }

  // ---------------------------------------------------------------------
  // The store as a value: the sequence of records in list order.
  // ---------------------------------------------------------------------

  /** The observable state of one `Student`; `examStatus` is `None` while
      the Java field is still null. */
  datatype Record = Record(id: string, name: JString, marks: int32, examStatus: Option<ExamStatus>)

  /** The store's invariant: no two records share an id. */
  ghost predicate IdsUnique(rs: seq<Record>) {
    forall i, j :: 0 <= i < j < |rs| ==> rs[i].id != rs[j].id
  }

  /** The store's invariant: every stored status is the one its marks give. */
  ghost predicate StatusesDerived(rs: seq<Record>) {
    forall i :: 0 <= i < |rs| ==> rs[i].examStatus == Some(Status(rs[i].marks))
  }

  ghost predicate Inv(rs: seq<Record>) {
    IdsUnique(rs) && StatusesDerived(rs)
  }

  /** The ids of the records, in list order. */
  function Keys(rs: seq<Record>): seq<string> {
    seq(|rs|, i requires 0 <= i < |rs| => rs[i].id)
  }

  /** The stream `filter(id equals).findFirst()` of `find` and `delete`:
      the position of the first `id` in `ids`, or `None` when there is none. */
  function FirstIndex(ids: seq<string>, id: string): (r: Option<nat>)
    ensures r.Some? ==> r.value < |ids| && ids[r.value] == id
                        && forall j :: 0 <= j < r.value ==> ids[j] != id
    ensures r.None? <==> forall j :: 0 <= j < |ids| ==> ids[j] != id
  {
    if ids == [] then None
    else if ids[0] == id then Some(0)
    else match FirstIndex(ids[1..], id)
      case None => None
      case Some(k) => Some(k + 1)
  }

  /** `find` on the value of the store: the first record in list order
      whose id is `id`, or `None` when no record has it. */
  function Lookup(rs: seq<Record>, id: string): (r: Option<Record>)
    ensures r.None? <==> forall j :: 0 <= j < |rs| ==> rs[j].id != id
    ensures r.Some? ==> exists k :: 0 <= k < |rs| && rs[k] == r.value && r.value.id == id
                                    && id !in Keys(rs[..k])
  {
    var ids := Keys(rs);
    assert forall j :: 0 <= j < |rs| ==> ids[j] == rs[j].id;
    match FirstIndex(ids, id)
    case None => None
    case Some(k) => Some(rs[k])
  }

  /** Appending a record with a fresh id and a derived status keeps the
      invariant. */
  lemma AppendKeepsInv(rs: seq<Record>, r: Record)
    requires Inv(rs)
    requires forall j :: 0 <= j < |rs| ==> rs[j].id != r.id
    requires r.examStatus == Some(Status(r.marks))
    ensures Inv(rs + [r])
  {
  }

  /** Taking one record out keeps the invariant. */
  lemma RemoveKeepsInv(rs: seq<Record>, k: nat)
    requires Inv(rs) && k < |rs|
    ensures Inv(rs[..k] + rs[k + 1..])
  {
    var after := rs[..k] + rs[k + 1..];
    assert forall j :: 0 <= j < |after| ==> after[j] == if j < k then rs[j] else rs[j + 1];
  }

  /** The new state and the outcome of one operation. */
  datatype Step = Step(outcome: Outcome, records: seq<Record>)

  /** `add`: blank name first, then duplicate id, else append with the
      derived status. */
  function AddStep(rs: seq<Record>, id: string, name: JString, marks: int32): (r: Step)
    ensures |r.records| == if r.outcome.Added? then |rs| + 1 else |rs|
    ensures r.records[..|rs|] == rs
    ensures r.outcome.Added? ==> r.outcome.status == Status(marks) && r.records[|rs|].id == id
    ensures !r.outcome.Added? ==> r.outcome == NameRequired || r.outcome == DuplicateId
  {
    if IsBlankName(name) then Step(NameRequired, rs)
    else if Lookup(rs, id).Some? then Step(DuplicateId, rs)
    else Step(Added(Status(marks)), rs + [Record(id, name, marks, Some(Status(marks)))])
  }

  /** `delete`: remove the first record with the id, if any. */
  function DeleteStep(rs: seq<Record>, id: string): (r: Step)
    ensures r.outcome == Deleted || r.outcome == NotFound
    ensures |r.records| == if r.outcome == Deleted then |rs| - 1 else |rs|
    ensures r.outcome == Deleted ==> exists k :: 0 <= k < |rs| && rs[k].id == id
                                               && multiset(r.records) + multiset{rs[k]} == multiset(rs)
  {
    match FirstIndex(Keys(rs), id)
    case None => Step(NotFound, rs)
    case Some(k) =>
      assert rs == rs[..k] + [rs[k]] + rs[k + 1..];
      Step(Deleted, rs[..k] + rs[k + 1..])
  }

  /** The update command: `find` the id, report not-found when it is absent
      (the caller's check), else overwrite name and marks of that record and
      recompute its status. The name is not checked. */
  function UpdateStep(rs: seq<Record>, id: string, name: JString, marks: int32): (r: Step)
    ensures r.outcome == NotFound || r.outcome == Updated(Status(marks))
    ensures |r.records| == |rs| && Keys(r.records) == Keys(rs)
  {
    match FirstIndex(Keys(rs), id)
    case None => Step(NotFound, rs)
    case Some(k) => Step(Updated(Status(marks)), rs[k := Record(rs[k].id, name, marks, Some(Status(marks)))])
  }

  /** `add` on a taken id, seen through the ids of the list. */
  lemma AddRejectsDuplicate(rs: seq<Record>, id: string, name: JString, marks: int32)
    requires !IsBlankName(name)
    requires exists k :: 0 <= k < |Keys(rs)| && Keys(rs)[k] == id
    ensures AddStep(rs, id, name, marks) == Step(DuplicateId, rs)
  {
    var k :| 0 <= k < |Keys(rs)| && Keys(rs)[k] == id;
    assert rs[k].id == id;
  }

  /** `add` of a non-blank name on a free id, seen through the ids of the
      list: the record is appended and the invariant kept. */
  lemma AddAccepts(rs: seq<Record>, id: string, name: JString, marks: int32)
    requires Inv(rs) && !IsBlankName(name)
    requires forall k :: 0 <= k < |Keys(rs)| ==> Keys(rs)[k] != id
    ensures AddStep(rs, id, name, marks) == Step(Added(Status(marks)), rs + [Record(id, name, marks, Some(Status(marks)))])
    ensures Inv(rs + [Record(id, name, marks, Some(Status(marks)))])
  {
    assert forall j :: 0 <= j < |rs| ==> rs[j].id == Keys(rs)[j];
    AppendKeepsInv(rs, Record(id, name, marks, Some(Status(marks))));
  }

  // ---------------------------------------------------------------------
  // The objects of the Java code.
  // ---------------------------------------------------------------------

  /** `Student`: the id is fixed at construction (the class has no setter
      for it); name, marks and status change through setters. */
  class Student {
    const id: string
    var name: JString
    var marks: int32
    var examStatus: Option<ExamStatus>

    /** The constructor leaves the status null until `add` sets it. */
    constructor (id: string, name: JString, marks: int32)
      ensures this.id == id && this.name == name && this.marks == marks
      ensures examStatus == None
    {
      this.id := id;
      this.name := name;
      this.marks := marks;
      examStatus := None;
    }

    ghost function View(): Record
      reads this
    {
      Record(id, name, marks, examStatus)
    }

    method SetName(name: JString)
      modifies this
      ensures this.name == name
      ensures marks == old(marks) && examStatus == old(examStatus)
    {
      this.name := name;
    }

    method SetMarks(marks: int32)
      modifies this
      ensures this.marks == marks
      ensures name == old(name) && examStatus == old(examStatus)
    {
      this.marks := marks;
    }

    method SetExamStatus(examStatus: Option<ExamStatus>)
      modifies this
      ensures this.examStatus == examStatus
      ensures name == old(name) && marks == old(marks)
    {
      this.examStatus := examStatus;
    }
  }

  /** The ids of a list of students; needs no frame, ids never change. */
  function IdsOf(ss: seq<Student>): seq<string> {
    seq(|ss|, i requires 0 <= i < |ss| => ss[i].id)
  }

  /** The static `studentRecords` list and the four operations on it. */
  class RecordStore {
    var records: seq<Student>

    /** The list's value: the state of each student, in list order. */
    ghost function Contents(): (c: seq<Record>)
      reads this, records
      ensures |c| == |records| && Keys(c) == IdsOf(records)
    {
      seq(|records|, i requires 0 <= i < |records| reads this, records => records[i].View())
    }

    ghost predicate Valid()
      reads this, records
    {
      Inv(Contents())
    }

    /** The list starts empty. */
    constructor ()
      ensures Valid() && Contents() == []
    {
      records := [];
    }

    /** `find`: the first student in list order whose id equals `id`, or
        `None` (the Java code's null) when no student has it. */
    function Find(id: string): (r: Option<Student>)
      reads this
      ensures r.None? <==> forall j :: 0 <= j < |records| ==> records[j].id != id
      ensures r.Some? ==> exists k :: 0 <= k < |records| && records[k] == r.value && r.value.id == id
                                      && id !in IdsOf(records[..k])
    {
      var ids := IdsOf(records);
      assert forall j :: 0 <= j < |records| ==> ids[j] == records[j].id;
      match FirstIndex(ids, id)
      case None => None
      case Some(k) => Some(records[k])
    }

    /** `add(record)`: the object the caller built is validated and, when
        accepted, gets its status and is appended. */
    method Add(record: Student) returns (outcome: Outcome)
      requires Valid()
      modifies this, record
      ensures Valid()
      ensures var step := AddStep(old(Contents()), record.id, old(record.name), old(record.marks));
              outcome == step.outcome && Contents() == step.records
      ensures records == if outcome.Added? then old(records) + [record] else old(records)
      ensures record.name == old(record.name) && record.marks == old(record.marks)
      ensures !outcome.Added? ==> record.examStatus == old(record.examStatus)
    {
      ghost var before := Contents();
      ghost var step := AddStep(before, record.id, record.name, record.marks);
      if IsBlankName(record.name) {
        return NameRequired;
      }
      var foundStudent := Find(record.id);
      if foundStudent.Some? {
        AddRejectsDuplicate(before, record.id, record.name, record.marks);
        return DuplicateId;
      }
      AddAccepts(before, record.id, record.name, record.marks);
      forall i | 0 <= i < |records| ensures records[i] != record {
        assert records[i].id == IdsOf(records)[i];
      }
      record.SetExamStatus(Some(if record.marks > 35 then Pass else Fail));
      records := records + [record];
      assert Contents() == step.records;
      outcome := Added(record.examStatus.value);
    }

    /** `delete(id)`: removes the first student with the id, or reports
        not-found. */
    method Delete(id: string) returns (outcome: Outcome)
      requires Valid()
      modifies this
      ensures Valid()
      ensures var step := DeleteStep(old(Contents()), id);
              outcome == step.outcome && Contents() == step.records
      ensures outcome == NotFound ==> records == old(records)
      ensures outcome == Deleted ==> exists k :: 0 <= k < |old(records)| && old(records)[k].id == id
                                                 && records == old(records)[..k] + old(records)[k + 1..]
    {
      ghost var before := Contents();
      var recordToDelete := FirstIndex(IdsOf(records), id);
      if recordToDelete.None? {
        assert DeleteStep(before, id) == Step(NotFound, before);
        return NotFound;
      }
      var k := recordToDelete.value;
      assert DeleteStep(before, id) == Step(Deleted, before[..k] + before[k + 1..]);
      RemoveKeepsInv(before, k);
      ghost var oldRecords := records;
      records := records[..k] + records[k + 1..];
      assert Contents() == before[..k] + before[k + 1..];
      assert oldRecords[k].id == id && records == oldRecords[..k] + oldRecords[k + 1..];
      outcome := Deleted;
    }

    /** `update(found, name, marks)`: overwrites the fields of the object it
        is given and recomputes its status; no check of any kind. Every list
        entry that is that object shows the new values, the rest nothing new. */
    method Update(found: Student, name: JString, marks: int32) returns (outcome: Outcome)
      requires Valid()
      modifies found
      ensures Valid()
      ensures found.name == name && found.marks == marks && found.examStatus == Some(Status(marks))
      ensures outcome == Updated(Status(marks))
      ensures |Contents()| == |old(Contents())|
      ensures forall i :: 0 <= i < |records| ==>
                Contents()[i] == if records[i] == found then found.View() else old(Contents())[i]
    {
      found.SetName(name);
      found.SetMarks(marks);
      found.SetExamStatus(Some(if found.marks > 35 then Pass else Fail));
      outcome := Updated(found.examStatus.value);
      assert forall i :: 0 <= i < |records| ==> Contents()[i].id == old(Contents())[i].id;
    }

    /** The update command: `find` the id and report not-found when it is
        absent, else `update` the student found. */
    method UpdateById(id: string, name: JString, marks: int32) returns (outcome: Outcome)
      requires Valid()
      modifies records
      ensures Valid()
      ensures var step := UpdateStep(old(Contents()), id, name, marks);
              outcome == step.outcome && Contents() == step.records
    {
      var found := Find(id);
      if found.None? {
        return NotFound;
      }
      ghost var before := Contents();
      ghost var k := FirstIndex(IdsOf(records), id).value;
      forall i | 0 <= i < |records| && i != k ensures records[i] != found.value {
        assert before[i].id != before[k].id;
      }
      outcome := Update(found.value, name, marks);
      assert Contents() == before[k := Record(id, name, marks, Some(Status(marks)))];
    }
  }
}
