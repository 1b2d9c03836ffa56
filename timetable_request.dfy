/** The create/update request body and its validation constraints. */
module Requests {
  import opened Outcomes
  import opened Entries
  import opened Teachers

  /** The request as received: every field may be absent (a null Java wrapper). */
  datatype TimetableRequest = TimetableRequest(
    teacherId: Option<int>,
    grade: Option<int>,
    section: Option<string>,
    subject: Option<string>,
    classDay: Option<string>,
    period: Option<int>)
  {
    /** All validation constraints of the request hold: the request is what the controller
        passes on after validating it. */
    predicate Valid()
    {
      && teacherId.Some?
      && grade.Some? && IsGrade(grade.value)
      && NotBlank(section) && IsSection(section.value)
      && NotBlank(subject)
      && NotBlank(classDay) && IsClassDay(classDay.value)
      && period.Some? && IsPeriod(period.value)
    }

    /** The slot the request asks for. */
    function SlotOf(): Slot
      requires Valid()
    {
      Slot(grade.value, section.value, classDay.value, period.value)
    }

    /** The teacher-time the request asks for. */
    function TeacherTimeOf(): TeacherTime
      requires Valid()
    {
      TeacherTime(teacherId.value, classDay.value, period.value)
    }

    /** The entry with identity `id` that carries the request's fields and the resolved teacher. */
    function ToEntry(id: int, teacher: Teacher): (e: Entry)
      requires Valid() && teacher.id == teacherId.value
      ensures e.WellFormed()
      ensures e.id == id && e.teacherId == teacher.id && e.subject == subject.value
      ensures e.SlotOf() == SlotOf() && e.TeacherTimeOf() == TeacherTimeOf()
    {
      Entry(id, teacher.id, grade.value, section.value, subject.value, classDay.value, period.value)
    }
  }

  /** Blank: every character is at most a space, so trimming leaves nothing. */
  predicate IsBlank(s: string)
  {
    forall i | 0 <= i < |s| :: s[i] <= ' '
  }

  /** The not-blank constraint: present and not blank. */
  predicate NotBlank(s: Option<string>)
  {
    s.Some? && !IsBlank(s.value)
  }

  /** A section or day that matches its pattern is never blank, so on those two fields the
      not-blank constraint only adds that the value is present. */
  lemma PatternImpliesNotBlank(s: string)
    requires IsSection(s) || IsClassDay(s)
    ensures !IsBlank(s)
  {
    assert s[0] > ' ';
  }
}
