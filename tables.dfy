/** In-memory stand-ins for the two persisted tables and the mutators the repositories inherit
    (save, deleteById). Identities come from a counter per table that only grows. */
module Tables {
  import opened Outcomes
  import opened Teachers
  import opened Entries
  import opened Repository

  /** The timetable_entries table. */
  class EntryTable {
    var rows: Rows
    var nextId: int

    /** Keys are the rows' own ids, all below the counter, and every row meets the column constraints. */
    ghost predicate Valid()
      reads this
    {
      && 1 <= nextId
      && Keyed(rows)
      && (forall k | k in rows :: 1 <= k < nextId)
      && AllWellFormed(rows)
    }

    constructor ()
      ensures Valid() && rows == map[] && nextId == 1
    {
      rows := map[];
      nextId := 1;
    }

    /** save of a new entity: the table assigns the next identity to it. */
    method Insert(e: Entry) returns (saved: Entry)
      requires Valid() && e.WellFormed()
      modifies this
      ensures Valid()
      ensures saved == e.(id := old(nextId)) && saved.id !in old(rows)
      ensures rows == old(rows)[saved.id := saved] && nextId == old(nextId) + 1
    {
      saved := e.(id := nextId);
      rows := rows[nextId := saved];
      nextId := nextId + 1;
    }

    /** save of an entity that is already stored: its row is overwritten. */
    method Put(e: Entry)
      requires Valid() && e.id in rows && e.WellFormed()
      modifies this
      ensures Valid()
      ensures rows == old(rows)[e.id := e] && nextId == old(nextId)
    {
      rows := rows[e.id := e];
    }

    /** deleteById: the row with that key is gone; nothing else changes. */
    method Remove(id: int)
      requires Valid()
      modifies this
      ensures Valid()
      ensures rows == old(rows) - {id} && nextId == old(nextId)
    {
      rows := rows - {id};
    }
  }

  /** The teachers table, with the unique constraint on its email column. */
  class TeacherTable {
    var rows: TeacherRows
    var nextId: int

    /** Keys are the rows' own ids, all below the counter, and no two rows share an email. */
    ghost predicate Valid()
      reads this
    {
      && 1 <= nextId
      && (forall k | k in rows :: rows[k].id == k && 1 <= k < nextId)
      && UniqueEmails(rows)
    }

    constructor ()
      ensures Valid() && rows == map[] && nextId == 1
    {
      rows := map[];
      nextId := 1;
    }

    /** save of a new teacher: it gets the next identity, unless the email is already taken,
        in which case the constraint rejects the write and the table is as it was. */
    method Insert(name: string, email: string) returns (r: Result<Teacher>)
      requires Valid()
      modifies this
      ensures Valid()
      ensures EmailInUse(old(rows), email) ==>
        r == Failure(EmailConstraintViolation) && rows == old(rows) && nextId == old(nextId)
      ensures !EmailInUse(old(rows), email) ==>
        && r == Success(Teacher(old(nextId), name, email))
        && rows == old(rows)[old(nextId) := r.value] && nextId == old(nextId) + 1
    {
      if EmailInUse(rows, email) {
        r := Failure(EmailConstraintViolation);
      } else {
        var t := Teacher(nextId, name, email);
        rows := rows[nextId := t];
        nextId := nextId + 1;
        r := Success(t);
      }
    }

    /** save of a stored teacher: its row is overwritten, unless another teacher already has the
        new email, in which case the constraint rejects the write and the table is as it was. */
    method Put(t: Teacher) returns (r: Outcome)
      requires Valid() && t.id in rows
      modifies this
      ensures Valid()
      ensures EmailHeldByOther(old(rows), t.id, t.email) ==>
        r == Fail(EmailConstraintViolation) && rows == old(rows) && nextId == old(nextId)
      ensures !EmailHeldByOther(old(rows), t.id, t.email) ==>
        r == Pass && rows == old(rows)[t.id := t] && nextId == old(nextId)
    {
      if EmailHeldByOther(rows, t.id, t.email) {
        r := Fail(EmailConstraintViolation);
      } else {
        rows := rows[t.id := t];
        r := Pass;
      }
    }

    /** deleteById: the row with that key is gone; nothing else changes. */
    method Remove(id: int)
      requires Valid()
      modifies this
      ensures Valid()
      ensures rows == old(rows) - {id} && nextId == old(nextId)
    {
      rows := rows - {id};
    }
  }
}
