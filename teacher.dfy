/** The teacher record. */
module Teachers {

  /** A stored teacher; `id` is assigned by the teacher table when the teacher is created. */
  datatype Teacher = Teacher(id: int, name: string, email: string)

  type TeacherRows = map<int, Teacher>

  /** Some stored teacher has this email (the derived query existsByEmail). */
  predicate EmailInUse(rows: TeacherRows, email: string)
  {
    exists k | k in rows :: rows[k].email == email
  }

  /** Some stored teacher other than the one with key `id` has this email. */
  predicate EmailHeldByOther(rows: TeacherRows, id: int, email: string)
  {
    exists k | k in rows :: k != id && rows[k].email == email
  }

  /** The unique constraint on the email column. */
  predicate UniqueEmails(rows: TeacherRows)
  {
    forall i, j | i in rows && j in rows && i != j :: rows[i].email != rows[j].email
  }
}
