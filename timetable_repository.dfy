/** The derived queries over the timetable entry table. */
module Repository {
  import opened Entries

  /** The table: entry rows by primary key. */
  type Rows = map<int, Entry>

  /** Every row stores its own key as its id. */
  predicate Keyed(rows: Rows)
  {
    forall k | k in rows :: rows[k].id == k
  }

  /** The tuple a derived query filters on. */
  datatype Probe = BySlot(slot: Slot) | ByTeacherTime(time: TeacherTime)

  /** The entry has the probed tuple (grade, section, day and period, or teacher, day and period). */
  predicate Matches(e: Entry, p: Probe)
  {
    match p
    case BySlot(s) => e.SlotOf() == s
    case ByTeacherTime(t) => e.TeacherTimeOf() == t
  }

  /** existsByGradeAndSectionAndClassDayAndPeriod and existsByTeacherIdAndClassDayAndPeriod. */
  predicate Exists(rows: Rows, p: Probe)
  {
    exists k | k in rows :: Matches(rows[k], p)
  }

  /** Two different rows have the probed tuple. */
  predicate Duplicated(rows: Rows, p: Probe)
  {
    exists i, j | i in rows && j in rows && i != j :: Matches(rows[i], p) && Matches(rows[j], p)
  }

  /** What a single-result query yields: no row, the one row, or the error for several rows. */
  datatype Lookup = NotFound | Found(entry: Entry) | NonUnique

  /** findByGradeAndSectionAndClassDayAndPeriod and findByTeacherIdAndClassDayAndPeriod. */
  function Find(rows: Rows, p: Probe): (r: Lookup)
    ensures r == NotFound <==> !Exists(rows, p)
    ensures r == NonUnique <==> Duplicated(rows, p)
    ensures r.Found? ==> Matches(r.entry, p) && r.entry in rows.Values
    ensures r.Found? ==> forall k | k in rows && Matches(rows[k], p) :: rows[k] == r.entry
  {
    if !Exists(rows, p) then NotFound
    else if Duplicated(rows, p) then NonUnique
    else
      var k :| k in rows && Matches(rows[k], p);
      Found(rows[k])
  }

  /** findByTeacherId: every stored entry of that teacher, and nothing else. */
  function FindByTeacherId(rows: Rows, teacherId: int): (r: set<Entry>)
    ensures forall k | k in rows :: rows[k] in r <==> rows[k].teacherId == teacherId
    ensures forall e | e in r :: exists k | k in rows :: rows[k] == e
  {
    set k | k in rows && rows[k].teacherId == teacherId :: rows[k]
  }

  /** findByGradeAndSection: every stored entry of that class section, and nothing else. */
  function FindByGradeAndSection(rows: Rows, grade: int, section: string): (r: set<Entry>)
    ensures forall k | k in rows :: rows[k] in r <==> rows[k].grade == grade && rows[k].section == section
    ensures forall e | e in r :: exists k | k in rows :: rows[k] == e
  {
    set k | k in rows && rows[k].grade == grade && rows[k].section == section :: rows[k]
  }

  /** The two uniqueness invariants: no two rows share a slot, no two rows share a teacher-time. */
  predicate NoDoubleBooking(rows: Rows)
  {
    forall i, j | i in rows && j in rows && i != j ::
      rows[i].SlotOf() != rows[j].SlotOf() && rows[i].TeacherTimeOf() != rows[j].TeacherTimeOf()
  }

  /** The invariants hold exactly when no probe matches two rows; so under them every
      single-result query is defined. */
  lemma NoDoubleBookingIffNoDuplicates(rows: Rows)
    ensures NoDoubleBooking(rows) <==> forall p: Probe :: !Duplicated(rows, p)
  {
    if !NoDoubleBooking(rows) {
      var i, j :| i in rows && j in rows && i != j &&
        (rows[i].SlotOf() == rows[j].SlotOf() || rows[i].TeacherTimeOf() == rows[j].TeacherTimeOf());
      if rows[i].SlotOf() == rows[j].SlotOf() {
        assert Duplicated(rows, BySlot(rows[i].SlotOf()));
      } else {
        assert Duplicated(rows, ByTeacherTime(rows[i].TeacherTimeOf()));
      }
    }
  }

  /** Under the invariants a single-result query returns the one matching row exactly when
      there is one, and reports nothing found otherwise. */
  lemma FindUnderNoDoubleBooking(rows: Rows, p: Probe, k: int)
    requires NoDoubleBooking(rows)
    ensures Find(rows, p) != NonUnique
    ensures k in rows && Matches(rows[k], p) ==> Find(rows, p) == Found(rows[k])
  {
    NoDoubleBookingIffNoDuplicates(rows);
  }

  /** The tuple queries ignore the subject: entries that differ only in subject collide. */
  lemma SubjectIgnored(e: Entry, subject: string, p: Probe)
    ensures Matches(e, p) <==> Matches(e.(subject := subject), p)
  {
  }

  /** A teacher is busy at a day and period exactly when that teacher's timetable lists an entry
      at that day and period. */
  lemma TeacherTimetableShowsBusyTimes(rows: Rows, t: TeacherTime)
    ensures Exists(rows, ByTeacherTime(t)) <==>
      exists e | e in FindByTeacherId(rows, t.teacherId) :: e.classDay == t.classDay && e.period == t.period
  {
    if Exists(rows, ByTeacherTime(t)) {
      var k :| k in rows && Matches(rows[k], ByTeacherTime(t));
      assert rows[k] in FindByTeacherId(rows, t.teacherId);
    }
    if exists e | e in FindByTeacherId(rows, t.teacherId) :: e.classDay == t.classDay && e.period == t.period {
      var e :| e in FindByTeacherId(rows, t.teacherId) && e.classDay == t.classDay && e.period == t.period;
      var k :| k in rows && rows[k] == e;
      assert Matches(rows[k], ByTeacherTime(t));
    }
  }

  /** A slot is taken exactly when the class section's timetable lists an entry at that day and period. */
  lemma SectionTimetableShowsTakenSlots(rows: Rows, s: Slot)
    ensures Exists(rows, BySlot(s)) <==>
      exists e | e in FindByGradeAndSection(rows, s.grade, s.section) :: e.classDay == s.classDay && e.period == s.period
  {
    if Exists(rows, BySlot(s)) {
      var k :| k in rows && Matches(rows[k], BySlot(s));
      assert rows[k] in FindByGradeAndSection(rows, s.grade, s.section);
    }
    if exists e | e in FindByGradeAndSection(rows, s.grade, s.section) :: e.classDay == s.classDay && e.period == s.period {
      var e :| e in FindByGradeAndSection(rows, s.grade, s.section) && e.classDay == s.classDay && e.period == s.period;
      var k :| k in rows && rows[k] == e;
      assert Matches(rows[k], BySlot(s));
    }
  }

  /** Every stored entry satisfies the entity's column constraints. */
  predicate AllWellFormed(rows: Rows)
  {
    forall k | k in rows :: rows[k].WellFormed()
  }

  /** Under the invariants a teacher's timetable holds at most one entry per teaching period of
      the week: at most six days times eight periods. */
  lemma TeacherTimetableFitsWeek(rows: Rows, teacherId: int)
    requires NoDoubleBooking(rows) && AllWellFormed(rows)
    ensures |FindByTeacherId(rows, teacherId)| <= |ValidDays()| * |ValidPeriods()|
  {
    var es := FindByTeacherId(rows, teacherId);
    forall e, f | e in es && f in es && e != f
      ensures e.WellFormed() && WeekPeriod(e) != WeekPeriod(f)
    {
      var i :| i in rows && rows[i] == e;
      var j :| j in rows && rows[j] == f;
      assert rows[i].TeacherTimeOf() != rows[j].TeacherTimeOf();
      WeekPeriodInjective(e, f);
    }
    WeekHoldsAtMost(es);
  }

  /** Under the invariants a class section's timetable holds at most one entry per teaching
      period of the week. */
  lemma SectionTimetableFitsWeek(rows: Rows, grade: int, section: string)
    requires NoDoubleBooking(rows) && AllWellFormed(rows)
    ensures |FindByGradeAndSection(rows, grade, section)| <= |ValidDays()| * |ValidPeriods()|
  {
    var es := FindByGradeAndSection(rows, grade, section);
    forall e, f | e in es && f in es && e != f
      ensures e.WellFormed() && WeekPeriod(e) != WeekPeriod(f)
    {
      var i :| i in rows && rows[i] == e;
      var j :| j in rows && rows[j] == f;
      assert rows[i].SlotOf() != rows[j].SlotOf();
      WeekPeriodInjective(e, f);
    }
    WeekHoldsAtMost(es);
  }

  /** Entries that occupy pairwise different teaching periods are at most as many as the week has. */
  lemma WeekHoldsAtMost(es: set<Entry>)
    requires forall e | e in es :: e.WellFormed()
    requires forall e, f | e in es && f in es && e != f :: WeekPeriod(e) != WeekPeriod(f)
    ensures |es| <= |ValidDays()| * |ValidPeriods()|
  {
    WeekPeriodsCount(es);
    BoundedIntSet(set e | e in es :: WeekPeriod(e), |ValidDays()| * |ValidPeriods()|);
  }

  lemma {:induction false} WeekPeriodsCount(es: set<Entry>)
    requires forall e | e in es :: e.WellFormed()
    requires forall e, f | e in es && f in es && e != f :: WeekPeriod(e) != WeekPeriod(f)
    ensures |set e | e in es :: WeekPeriod(e)| == |es|
  {
    if es != {} {
      var x :| x in es;
      var rest := es - {x};
      WeekPeriodsCount(rest);
      assert (set e | e in es :: WeekPeriod(e)) == (set e | e in rest :: WeekPeriod(e)) + {WeekPeriod(x)};
    }
  }

  lemma {:induction false} BoundedIntSet(s: set<int>, n: nat)
    requires forall i | i in s :: 0 <= i < n
    ensures |s| <= n
  {
    if n == 0 {
      assert forall i :: i !in s;
      assert s == {};
    } else {
      BoundedIntSet(s - {n - 1}, n - 1);
    }
  }
}
