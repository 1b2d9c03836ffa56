/** The timetable entry record and the value domains of its columns. */
module Entries {

  /** A class section's teaching period: the tuple at most one entry may hold. */
  datatype Slot = Slot(grade: int, section: string, classDay: string, period: int)

  /** A teacher's teaching period: the tuple at most one entry may hold. */
  datatype TeacherTime = TeacherTime(teacherId: int, classDay: string, period: int)

  /** A stored entry. The teacher is held by its key, the `teacher_id` join column, which every
      entry has; the subject column is never null, which `string` already says. */
  datatype Entry = Entry(id: int, teacherId: int, grade: int, section: string, subject: string,
                         classDay: string, period: int)
  {
    /** The slot the entry occupies; the subject is not part of it. */
    function SlotOf(): Slot
    {
      Slot(grade, section, classDay, period)
    }

    /** The teacher-time the entry occupies. */
    function TeacherTimeOf(): TeacherTime
    {
      TeacherTime(teacherId, classDay, period)
    }

    /** The column constraints declared on the entity. */
    predicate WellFormed()
    {
      IsGrade(grade) && IsSection(section) && IsClassDay(classDay) && IsPeriod(period)
    }
  }

  /** Grade: at least 1, at most 12. */
  predicate IsGrade(g: int)
  {
    1 <= g <= 12
  }

  /** Section: the pattern `^[A-Z]$`, a single uppercase letter. */
  predicate IsSection(s: string)
  {
    |s| == 1 && 'A' <= s[0] <= 'Z'
  }

  /** Day: the pattern `^(Monday|Tuesday|Wednesday|Thursday|Friday|Saturday)$`. */
  predicate IsClassDay(d: string)
  {
    d == "Monday" || d == "Tuesday" || d == "Wednesday" || d == "Thursday" || d == "Friday" || d == "Saturday"
  }

  /** Period: between 1 and 8. */
  predicate IsPeriod(p: int)
  {
    1 <= p <= 8
  }

  /** The list of valid day names: exactly the names the day pattern accepts, each once. */
  function ValidDays(): (days: seq<string>)
    ensures |days| == 6
    ensures forall d :: d in days <==> IsClassDay(d)
    ensures forall i, j | 0 <= i < j < |days| :: days[i] != days[j]
  {
    ["Monday", "Tuesday", "Wednesday", "Thursday", "Friday", "Saturday"]
  }

  /** The list of valid periods: exactly the periods in range, in increasing order. */
  function ValidPeriods(): (periods: seq<int>)
    ensures |periods| == 8
    ensures forall p :: p in periods <==> IsPeriod(p)
    ensures forall i | 0 <= i < |periods| :: periods[i] == i + 1
  {
    [1, 2, 3, 4, 5, 6, 7, 8]
  }

  /** The position of a valid day in the week, Monday being 0. */
  function DayNumber(d: string): (n: int)
    requires IsClassDay(d)
    ensures 0 <= n < |ValidDays()| && ValidDays()[n] == d
  {
    if d == "Monday" then 0
    else if d == "Tuesday" then 1
    else if d == "Wednesday" then 2
    else if d == "Thursday" then 3
    else if d == "Friday" then 4
    else 5
  }

  /** The position of a well-formed entry's (day, period) in the 48 teaching periods of a week. */
  function WeekPeriod(e: Entry): (n: int)
    requires e.WellFormed()
    ensures 0 <= n < |ValidDays()| * |ValidPeriods()|
  {
    DayNumber(e.classDay) * 8 + (e.period - 1)
  }

  /** Two well-formed entries share a week position only when they share day and period. */
  lemma WeekPeriodInjective(e: Entry, f: Entry)
    requires e.WellFormed() && f.WellFormed()
    ensures WeekPeriod(e) == WeekPeriod(f) ==> e.classDay == f.classDay && e.period == f.period
  {
    if WeekPeriod(e) == WeekPeriod(f) {
      assert DayNumber(e.classDay) == DayNumber(f.classDay);
    }
  }
}
