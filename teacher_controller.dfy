/** The store decisions of the teacher endpoints: create, update and delete. */
module TeacherControl {
  import opened Outcomes
  import opened Teachers
  import opened Tables

  /** The teacher endpoints over the teacher table they write. */
  class TeacherController {
    const teachers: TeacherTable

    constructor (teachers: TeacherTable)
      ensures this.teachers == teachers
    {
      this.teachers := teachers;
    }

    /** createTeacher: an email already stored is rejected and nothing is saved; otherwise the
        teacher is saved under the next id and returned with it. */
    method CreateTeacher(name: string, email: string) returns (r: Result<Teacher>)
      requires teachers.Valid()
      modifies teachers
      ensures teachers.Valid()
      ensures EmailInUse(old(teachers.rows), email) ==>
        && r == Failure(DuplicateEmail)
        && teachers.rows == old(teachers.rows) && teachers.nextId == old(teachers.nextId)
      ensures !EmailInUse(old(teachers.rows), email) ==>
        && r == Success(Teacher(old(teachers.nextId), name, email))
        && teachers.rows == old(teachers.rows)[r.value.id := r.value]
        && teachers.nextId == old(teachers.nextId) + 1
    {
      if EmailInUse(teachers.rows, email) {
        return Failure(DuplicateEmail);
      }
      r := teachers.Insert(name, email);
    }

    /** updateTeacher: an absent id is not found and changes nothing; otherwise only name and
        email of that teacher are overwritten and its id is kept. The endpoint checks no email
        itself: a clash with another teacher is refused by the column constraint, and then
        nothing changes either. */
    method UpdateTeacher(id: int, name: string, email: string) returns (r: Result<Teacher>)
      requires teachers.Valid()
      modifies teachers
      ensures teachers.Valid()
      ensures id !in old(teachers.rows) ==>
        && r == Failure(TeacherNotFound(id))
        && teachers.rows == old(teachers.rows) && teachers.nextId == old(teachers.nextId)
      ensures id in old(teachers.rows) && EmailHeldByOther(old(teachers.rows), id, email) ==>
        && r == Failure(EmailConstraintViolation)
        && teachers.rows == old(teachers.rows) && teachers.nextId == old(teachers.nextId)
      ensures id in old(teachers.rows) && !EmailHeldByOther(old(teachers.rows), id, email) ==>
        && r == Success(old(teachers.rows)[id].(name := name, email := email))
        && r.value.id == id
        && teachers.rows == old(teachers.rows)[id := r.value]
        && teachers.nextId == old(teachers.nextId)
    {
      if id !in teachers.rows {
        return Failure(TeacherNotFound(id));
      }
      var updated := teachers.rows[id].(name := name, email := email);
      var saved := teachers.Put(updated);
      if saved.Fail? {
        return Failure(saved.error);
      }
      r := Success(updated);
    }

    /** deleteTeacher: an absent id is not found and removes nothing; otherwise exactly that
        teacher is removed. */
    method DeleteTeacher(id: int) returns (r: Outcome)
      requires teachers.Valid()
      modifies teachers
      ensures teachers.Valid()
      ensures id !in old(teachers.rows) ==>
        r == Fail(TeacherNotFound(id)) && teachers.rows == old(teachers.rows) && teachers.nextId == old(teachers.nextId)
      ensures id in old(teachers.rows) ==>
        r == Pass && teachers.rows == old(teachers.rows) - {id} && teachers.nextId == old(teachers.nextId)
    {
      if id !in teachers.rows {
        return Fail(TeacherNotFound(id));
      }
      teachers.Remove(id);
      r := Pass;
    }
  }

  /** The overwrite updateTeacher performs, taken alone, can give two teachers one email: email
      uniqueness on update rests on the column constraint only. */
  lemma UpdateAloneCanDuplicateEmail(rows: TeacherRows, id: int, other: int, name: string)
    requires UniqueEmails(rows) && id in rows && other in rows && id != other
    ensures !UniqueEmails(rows[id := rows[id].(name := name, email := rows[other].email)])
  {
    var next := rows[id := rows[id].(name := name, email := rows[other].email)];
    assert next[id].email == next[other].email;
  }

  /** On create the endpoint's own check already excludes every write the constraint would
      refuse: a new email is held by no stored teacher. */
  lemma CreateCheckCoversConstraint(rows: TeacherRows, t: Teacher)
    requires UniqueEmails(rows) && t.id !in rows && !EmailInUse(rows, t.email)
    ensures UniqueEmails(rows[t.id := t])
  {
    var next := rows[t.id := t];
    forall i, j | i in next && j in next && i != j
      ensures next[i].email != next[j].email
    {
      if i == t.id {
        assert rows[j].email != t.email;
      } else if j == t.id {
        assert rows[i].email != t.email;
      }
    }
  }
}
