/** The scheduling validator and the create, update and delete operations built on it. */
module Service {
  import opened Outcomes
  import opened Teachers
  import opened Entries
  import opened Requests
  import opened Repository
  import opened Tables

  /** Some stored entry other than the excluded one holds the probed tuple. */
  predicate HeldByOther(rows: Rows, p: Probe, excludeId: Option<int>)
  {
    exists k | k in rows :: Matches(rows[k], p) && Some(rows[k].id) != excludeId
  }

  /** The decision the validator is meant to make, asked as one question per tuple: the slot is
      held by another entry, else the teacher-time is held by another entry, else no conflict. */
  function DirectCheck(rows: Rows, req: TimetableRequest, excludeId: Option<int>): Outcome
    requires req.Valid()
  {
    if HeldByOther(rows, BySlot(req.SlotOf()), excludeId) then Fail(SlotConflict)
    else if HeldByOther(rows, ByTeacherTime(req.TeacherTimeOf()), excludeId) then Fail(TeacherConflict)
    else Pass
  }

  /** One half of validateNoConflicts: the existence query, then, only when updating, the
      single-result query and the comparison of the match's id with the excluded id. */
  function CheckProbe(rows: Rows, p: Probe, excludeId: Option<int>, conflict: Error): (r: Outcome)
    ensures excludeId.None? || !Duplicated(rows, p) ==>
      r == if HeldByOther(rows, p, excludeId) then Fail(conflict) else Pass
    ensures excludeId.Some? && Duplicated(rows, p) ==> r == Fail(NonUniqueResult)
  {
    if !Exists(rows, p) then Pass
    else
      match excludeId
      case None => Fail(conflict)
      case Some(x) =>
        match Find(rows, p)
        case Found(e) => if e.id != x then Fail(conflict) else Pass
        case NotFound => Pass
        case NonUnique => Fail(NonUniqueResult)
  }

  /** validateNoConflicts: the slot check strictly before the teacher check. On create, and on
      update whenever the invariants hold, it makes exactly the direct decision; it can report a
      non-unique result only on an update over a table that already double-books. */
  function Validate(rows: Rows, req: TimetableRequest, excludeId: Option<int>): (r: Outcome)
    requires req.Valid()
    ensures excludeId.None? || NoDoubleBooking(rows) ==> r == DirectCheck(rows, req, excludeId)
    ensures r.Fail? ==> r.error in {SlotConflict, TeacherConflict, NonUniqueResult}
    ensures r == Fail(NonUniqueResult) ==> excludeId.Some? && !NoDoubleBooking(rows)
  {
    NoDoubleBookingIffNoDuplicates(rows);
    match CheckProbe(rows, BySlot(req.SlotOf()), excludeId, SlotConflict)
    case Fail(e) => Fail(e)
    case Pass => CheckProbe(rows, ByTeacherTime(req.TeacherTimeOf()), excludeId, TeacherConflict)
  }

  /** The checks of createTimetableEntry in order: the teacher exists, then no conflict. */
  function CreateCheck(rows: Rows, teachers: TeacherRows, req: TimetableRequest): (r: Outcome)
    requires req.Valid()
    ensures r == Fail(TeacherNotFound(req.teacherId.value)) <==> req.teacherId.value !in teachers
    ensures req.teacherId.value in teachers ==>
      && (r == Fail(SlotConflict) <==> Exists(rows, BySlot(req.SlotOf())))
      && (r == Fail(TeacherConflict) <==>
            !Exists(rows, BySlot(req.SlotOf())) && Exists(rows, ByTeacherTime(req.TeacherTimeOf())))
      && (r == Pass <==>
            !Exists(rows, BySlot(req.SlotOf())) && !Exists(rows, ByTeacherTime(req.TeacherTimeOf())))
  {
    var teacherId := req.teacherId.value;
    if teacherId !in teachers then Fail(TeacherNotFound(teacherId))
    else Validate(rows, req, None)
  }

  /** The checks of updateTimetableEntry in order: the entry exists, then the teacher, then no
      conflict with any entry but itself. */
  function UpdateCheck(rows: Rows, teachers: TeacherRows, id: int, req: TimetableRequest): (r: Outcome)
    requires req.Valid()
    ensures r == Fail(EntryNotFound(id)) <==> id !in rows
    ensures id in rows ==> (r == Fail(TeacherNotFound(req.teacherId.value)) <==> req.teacherId.value !in teachers)
    ensures id in rows && req.teacherId.value in teachers && NoDoubleBooking(rows) ==>
      r == DirectCheck(rows, req, Some(id))
  {
    var teacherId := req.teacherId.value;
    if id !in rows then Fail(EntryNotFound(id))
    else if teacherId !in teachers then Fail(TeacherNotFound(teacherId))
    else Validate(rows, req, Some(id))
  }

  /** When both tuples are taken by other entries, the slot conflict is the one reported. */
  lemma SlotConflictReportedFirst(rows: Rows, req: TimetableRequest, excludeId: Option<int>)
    requires req.Valid() && (excludeId.None? || NoDoubleBooking(rows))
    requires HeldByOther(rows, BySlot(req.SlotOf()), excludeId)
    ensures Validate(rows, req, excludeId) == Fail(SlotConflict)
  {
  }

  /** Updating an entry to its own current slot and teacher-time never conflicts. */
  lemma SelfUpdateNeverConflicts(rows: Rows, id: int, req: TimetableRequest)
    requires NoDoubleBooking(rows) && Keyed(rows) && req.Valid() && id in rows
    requires req.SlotOf() == rows[id].SlotOf() && req.TeacherTimeOf() == rows[id].TeacherTimeOf()
    ensures Validate(rows, req, Some(id)) == Pass
  {
    forall k | k in rows && k != id
      ensures !Matches(rows[k], BySlot(req.SlotOf())) && !Matches(rows[k], ByTeacherTime(req.TeacherTimeOf()))
    {
      assert rows[k].SlotOf() != rows[id].SlotOf();
      assert rows[k].TeacherTimeOf() != rows[id].TeacherTimeOf();
    }
  }

  /** Updating an entry to the slot another entry holds fails with a slot conflict. */
  lemma UpdateOntoTakenSlot(rows: Rows, id: int, other: int, req: TimetableRequest)
    requires NoDoubleBooking(rows) && Keyed(rows) && req.Valid()
    requires other in rows && other != id && rows[other].SlotOf() == req.SlotOf()
    ensures Validate(rows, req, Some(id)) == Fail(SlotConflict)
  {
    assert Matches(rows[other], BySlot(req.SlotOf()));
  }

  /** Updating an entry to a free slot but to a teacher-time another entry holds fails with a
      teacher conflict. */
  lemma UpdateOntoBusyTeacher(rows: Rows, id: int, other: int, req: TimetableRequest)
    requires NoDoubleBooking(rows) && Keyed(rows) && req.Valid()
    requires !HeldByOther(rows, BySlot(req.SlotOf()), Some(id))
    requires other in rows && other != id && rows[other].TeacherTimeOf() == req.TeacherTimeOf()
    ensures Validate(rows, req, Some(id)) == Fail(TeacherConflict)
  {
    assert Matches(rows[other], ByTeacherTime(req.TeacherTimeOf()));
  }

  /** Writing entry `e` under its own id keeps both invariants when no other entry holds its
      slot or its teacher-time. */
  lemma AdmitKeepsNoDoubleBooking(rows: Rows, e: Entry)
    requires NoDoubleBooking(rows) && Keyed(rows)
    requires !HeldByOther(rows, BySlot(e.SlotOf()), Some(e.id))
    requires !HeldByOther(rows, ByTeacherTime(e.TeacherTimeOf()), Some(e.id))
    ensures NoDoubleBooking(rows[e.id := e])
  {
    var next := rows[e.id := e];
    forall i, j | i in next && j in next && i != j
      ensures next[i].SlotOf() != next[j].SlotOf() && next[i].TeacherTimeOf() != next[j].TeacherTimeOf()
    {
      if i == e.id {
        assert !Matches(rows[j], BySlot(e.SlotOf())) && !Matches(rows[j], ByTeacherTime(e.TeacherTimeOf()));
      } else if j == e.id {
        assert !Matches(rows[i], BySlot(e.SlotOf())) && !Matches(rows[i], ByTeacherTime(e.TeacherTimeOf()));
      }
    }
  }

  /** A create that passes its checks keeps both invariants. */
  lemma CreateKeepsNoDoubleBooking(rows: Rows, teachers: TeacherRows, req: TimetableRequest, e: Entry)
    requires NoDoubleBooking(rows) && Keyed(rows) && req.Valid()
    requires CreateCheck(rows, teachers, req) == Pass
    requires e.id !in rows && e.SlotOf() == req.SlotOf() && e.TeacherTimeOf() == req.TeacherTimeOf()
    ensures NoDoubleBooking(rows[e.id := e])
  {
    AdmitKeepsNoDoubleBooking(rows, e);
  }

  /** An update that passes its checks keeps both invariants. */
  lemma UpdateKeepsNoDoubleBooking(rows: Rows, teachers: TeacherRows, req: TimetableRequest, e: Entry)
    requires NoDoubleBooking(rows) && Keyed(rows) && req.Valid()
    requires UpdateCheck(rows, teachers, e.id, req) == Pass
    requires e.SlotOf() == req.SlotOf() && e.TeacherTimeOf() == req.TeacherTimeOf()
    ensures NoDoubleBooking(rows[e.id := e])
  {
    AdmitKeepsNoDoubleBooking(rows, e);
  }

  /** Removing an entry keeps both invariants. */
  lemma RemoveKeepsNoDoubleBooking(rows: Rows, id: int)
    requires NoDoubleBooking(rows)
    ensures NoDoubleBooking(rows - {id})
  {
  }

  /** The timetable service over the entry table it writes and the teacher table it reads. */
  class TimetableService {
    const entries: EntryTable
    const teachers: TeacherTable

    ghost predicate Valid()
      reads this, entries, teachers
    {
      entries.Valid() && teachers.Valid()
    }

    constructor (entries: EntryTable, teachers: TeacherTable)
      requires entries.Valid() && teachers.Valid()
      ensures this.entries == entries && this.teachers == teachers
      ensures Valid()
    {
      this.entries := entries;
      this.teachers := teachers;
    }

    /** getAllTimetableEntries: every stored entry. */
    method GetAllTimetableEntries() returns (r: set<Entry>)
      ensures forall k | k in entries.rows :: entries.rows[k] in r
      ensures forall e | e in r :: exists k | k in entries.rows :: entries.rows[k] == e
    {
      r := set k | k in entries.rows :: entries.rows[k];
    }

    /** getTimetableEntryById: the stored entry with that id, if any. */
    method GetTimetableEntryById(id: int) returns (r: Option<Entry>)
      ensures r.Some? <==> id in entries.rows
      ensures r.Some? ==> r.value == entries.rows[id]
    {
      r := if id in entries.rows then Some(entries.rows[id]) else None;
    }

    /** getTimetableByTeacher: the repository's findByTeacherId. */
    method GetTimetableByTeacher(teacherId: int) returns (r: set<Entry>)
      ensures r == FindByTeacherId(entries.rows, teacherId)
    {
      r := FindByTeacherId(entries.rows, teacherId);
    }

    /** getTimetableByGradeAndSection: the repository's findByGradeAndSection. */
    method GetTimetableByGradeAndSection(grade: int, section: string) returns (r: set<Entry>)
      ensures r == FindByGradeAndSection(entries.rows, grade, section)
    {
      r := FindByGradeAndSection(entries.rows, grade, section);
    }

    /** createTimetableEntry: a failed check leaves the table as it was; otherwise exactly one
        new entry carrying the request's fields and the resolved teacher is added under the next
        id. Both invariants are kept. */
    method CreateTimetableEntry(req: TimetableRequest) returns (r: Result<Entry>)
      requires Valid() && req.Valid()
      modifies entries
      ensures Valid()
      ensures var check := CreateCheck(old(entries.rows), teachers.rows, req);
        && (check.Fail? ==>
              r == Failure(check.error) && entries.rows == old(entries.rows) && entries.nextId == old(entries.nextId))
        && (check.Pass? ==>
              && r == Success(req.ToEntry(old(entries.nextId), teachers.rows[req.teacherId.value]))
              && entries.rows == old(entries.rows)[r.value.id := r.value]
              && entries.nextId == old(entries.nextId) + 1)
      ensures old(NoDoubleBooking(entries.rows)) ==> NoDoubleBooking(entries.rows)
    {
      var teacherId := req.teacherId.value;
      if teacherId !in teachers.rows {
        return Failure(TeacherNotFound(teacherId));
      }
      var teacher := teachers.rows[teacherId];
      var check := Validate(entries.rows, req, None);
      if check.Fail? {
        return Failure(check.error);
      }
      ghost var before := entries.rows;
      var saved := entries.Insert(req.ToEntry(entries.nextId, teacher));
      if NoDoubleBooking(before) {
        CreateKeepsNoDoubleBooking(before, teachers.rows, req, saved);
      }
      r := Success(saved);
    }

    /** updateTimetableEntry: a failed check leaves the table as it was; otherwise the entry's
        teacher, grade, section, subject, day and period are overwritten, its id is kept and no
        other entry changes. Both invariants are kept. */
    method UpdateTimetableEntry(id: int, req: TimetableRequest) returns (r: Result<Entry>)
      requires Valid() && req.Valid()
      modifies entries
      ensures Valid()
      ensures var check := UpdateCheck(old(entries.rows), teachers.rows, id, req);
        && (check.Fail? ==>
              r == Failure(check.error) && entries.rows == old(entries.rows) && entries.nextId == old(entries.nextId))
        && (check.Pass? ==>
              && r == Success(req.ToEntry(id, teachers.rows[req.teacherId.value]))
              && entries.rows == old(entries.rows)[id := r.value]
              && entries.nextId == old(entries.nextId))
      ensures old(NoDoubleBooking(entries.rows)) ==> NoDoubleBooking(entries.rows)
    {
      if id !in entries.rows {
        return Failure(EntryNotFound(id));
      }
      var teacherId := req.teacherId.value;
      if teacherId !in teachers.rows {
        return Failure(TeacherNotFound(teacherId));
      }
      var teacher := teachers.rows[teacherId];
      var check := Validate(entries.rows, req, Some(id));
      if check.Fail? {
        return Failure(check.error);
      }
      ghost var before := entries.rows;
      var updated := req.ToEntry(id, teacher);
      entries.Put(updated);
      if NoDoubleBooking(before) {
        UpdateKeepsNoDoubleBooking(before, teachers.rows, req, updated);
      }
      r := Success(updated);
    }

    /** deleteTimetableEntry: an absent id fails and removes nothing; otherwise exactly that
        entry is removed. Both invariants are kept. */
    method DeleteTimetableEntry(id: int) returns (r: Outcome)
      requires Valid()
      modifies entries
      ensures Valid()
      ensures id !in old(entries.rows) ==>
        r == Fail(EntryNotFound(id)) && entries.rows == old(entries.rows) && entries.nextId == old(entries.nextId)
      ensures id in old(entries.rows) ==>
        r == Pass && entries.rows == old(entries.rows) - {id} && entries.nextId == old(entries.nextId)
      ensures old(NoDoubleBooking(entries.rows)) ==> NoDoubleBooking(entries.rows)
    {
      if id !in entries.rows {
        return Fail(EntryNotFound(id));
      }
      ghost var before := entries.rows;
      entries.Remove(id);
      if NoDoubleBooking(before) {
        RemoveKeepsNoDoubleBooking(before, id);
      }
      r := Pass;
    }
  }
}
