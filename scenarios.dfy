/** Client code: the service's scenarios replayed against the contracts alone. */
module Scenarios {
  import opened Outcomes
  import opened Teachers
  import opened Entries
  import opened Requests
  import opened Repository
  import opened Tables
  import opened Service
  import opened TeacherControl

  function Request(teacherId: int, grade: int, section: string, subject: string, day: string, period: int): TimetableRequest
  {
    TimetableRequest(Some(teacherId), Some(grade), Some(section), Some(subject), Some(day), Some(period))
  }

  const Bijay := Teacher(1, "Bijay Panda", "bijayaprasana.job@gmail.com")
  const Jiwanshu := Teacher(2, "Jiwanshu Kumar", "javajiwanshu@sutramsolutions.com")

  /** Registering the two teachers of the tests through the teacher endpoint; a third
      registration with an email already in use is refused. */
  method RegisterTeachers() returns (service: TimetableService)
    ensures fresh(service) && fresh(service.entries) && fresh(service.teachers) && service.Valid()
    ensures service.teachers.rows == map[1 := Bijay, 2 := Jiwanshu]
    ensures service.entries.rows == map[] && service.entries.nextId == 1
  {
    var teachers := new TeacherTable();
    var entries := new EntryTable();
    var controller := new TeacherController(teachers);
    var bijay := controller.CreateTeacher(Bijay.name, Bijay.email);
    assert bijay == Success(Bijay);
    var jiwanshu := controller.CreateTeacher(Jiwanshu.name, Jiwanshu.email);
    assert jiwanshu == Success(Jiwanshu);
    assert teachers.rows[1].email == Bijay.email;
    var again := controller.CreateTeacher("Someone Else", Bijay.email);
    assert again == Failure(DuplicateEmail);
    service := new TimetableService(entries, teachers);
  }

  /** Mathematics for 7A, Monday period 1, taught by teacher 1. */
  function Mathematics(): (req: TimetableRequest)
    ensures req.Valid()
  {
    assert "A"[0] > ' ' && "Mathematics"[0] > ' ' && "Monday"[0] > ' ';
    Request(1, 7, "A", "Mathematics", "Monday", 1)
  }

  /** Booking Mathematics succeeds; booking the same slot for another teacher is a slot
      conflict; booking teacher 1 elsewhere at the same time is a teacher conflict; an unknown
      teacher is not found. */
  method CreateScenario()
  {
    var service := RegisterTeachers();
    var created := service.CreateTimetableEntry(Mathematics());
    assert created == Success(Entry(1, 1, 7, "A", "Mathematics", "Monday", 1));

    var english := Request(2, 7, "A", "English", "Monday", 1);
    assert english.Valid() by { assert "A"[0] > ' ' && "English"[0] > ' ' && "Monday"[0] > ' '; }
    var slotTaken := service.CreateTimetableEntry(english);
    assert Matches(service.entries.rows[1], BySlot(english.SlotOf()));
    assert slotTaken == Failure(SlotConflict);

    var science := Request(1, 6, "B", "Science", "Monday", 1);
    assert science.Valid() by { assert "B"[0] > ' ' && "Science"[0] > ' ' && "Monday"[0] > ' '; }
    var teacherBusy := service.CreateTimetableEntry(science);
    assert !Matches(service.entries.rows[1], BySlot(science.SlotOf()));
    assert Matches(service.entries.rows[1], ByTeacherTime(science.TeacherTimeOf()));
    assert teacherBusy == Failure(TeacherConflict);

    var art := Request(9, 5, "C", "Art", "Friday", 3);
    assert art.Valid() by { assert "C"[0] > ' ' && "Art"[0] > ' ' && "Friday"[0] > ' '; }
    var unknownTeacher := service.CreateTimetableEntry(art);
    assert unknownTeacher == Failure(TeacherNotFound(9));
  }

  /** Re-submitting a booked entry unchanged succeeds; updating or deleting an absent id is not
      found; deleting a booked entry removes it. */
  method UpdateDeleteScenario()
  {
    var service := RegisterTeachers();
    var created := service.CreateTimetableEntry(Mathematics());
    assert created == Success(Entry(1, 1, 7, "A", "Mathematics", "Monday", 1));

    var same := service.UpdateTimetableEntry(1, Mathematics());
    assert same == created && service.entries.rows == map[1 := created.value];

    var missing := service.UpdateTimetableEntry(2, Mathematics());
    assert missing == Failure(EntryNotFound(2));

    var deleted := service.DeleteTimetableEntry(1);
    assert deleted == Pass && service.entries.rows == map[];
    var deletedAgain := service.DeleteTimetableEntry(1);
    assert deletedAgain == Fail(EntryNotFound(1));
  }

  /** Moving a booked entry onto a slot another entry holds is a slot conflict; moving it to a
      free slot at a time its new teacher teaches elsewhere is a teacher conflict. Neither
      changes the table. */
  method UpdateConflictScenario()
  {
    var service := RegisterTeachers();
    var maths := service.CreateTimetableEntry(Mathematics());
    assert maths == Success(Entry(1, 1, 7, "A", "Mathematics", "Monday", 1));

    var english := Request(2, 6, "A", "English", "Monday", 2);
    assert english.Valid() by { assert "A"[0] > ' ' && "English"[0] > ' ' && "Monday"[0] > ' '; }
    assert !Matches(service.entries.rows[1], BySlot(english.SlotOf()));
    assert !Matches(service.entries.rows[1], ByTeacherTime(english.TeacherTimeOf()));
    var second := service.CreateTimetableEntry(english);
    assert second == Success(Entry(2, 2, 6, "A", "English", "Monday", 2));
    ghost var booked := service.entries.rows;

    var ontoSlot := Request(1, 6, "A", "Mathematics", "Monday", 2);
    assert ontoSlot.Valid() by { assert "A"[0] > ' ' && "Mathematics"[0] > ' ' && "Monday"[0] > ' '; }
    UpdateOntoTakenSlot(service.entries.rows, 1, 2, ontoSlot);
    var slotTaken := service.UpdateTimetableEntry(1, ontoSlot);
    assert slotTaken == Failure(SlotConflict) && service.entries.rows == booked;

    var ontoTeacher := Request(2, 5, "C", "Art", "Monday", 2);
    assert ontoTeacher.Valid() by { assert "C"[0] > ' ' && "Art"[0] > ' ' && "Monday"[0] > ' '; }
    assert !Matches(service.entries.rows[1], BySlot(ontoTeacher.SlotOf()));
    assert !Matches(service.entries.rows[2], BySlot(ontoTeacher.SlotOf()));
    UpdateOntoBusyTeacher(service.entries.rows, 1, 2, ontoTeacher);
    var teacherBusy := service.UpdateTimetableEntry(1, ontoTeacher);
    assert teacherBusy == Failure(TeacherConflict) && service.entries.rows == booked;
  }

  /** With one entry booked, every query returns exactly that entry. */
  method QueryScenario()
  {
    var service := RegisterTeachers();
    var created := service.CreateTimetableEntry(Mathematics());
    var maths := Entry(1, 1, 7, "A", "Mathematics", "Monday", 1);
    assert created == Success(maths) && service.entries.rows == map[1 := maths];

    var all := service.GetAllTimetableEntries();
    assert service.entries.rows[1] in all;
    forall e | e in all
      ensures e == maths
    {
      var k :| k in service.entries.rows && service.entries.rows[k] == e;
    }
    assert all == {maths};
    var byId := service.GetTimetableEntryById(1);
    assert byId == Some(maths);
    var byTeacher := service.GetTimetableByTeacher(1);
    assert byTeacher == {maths};
    var bySection := service.GetTimetableByGradeAndSection(7, "A");
    assert bySection == {maths};
  }

  /** The sample rows loaded at start-up keep both invariants. */
  method SampleDataIsConsistent()
  {
    var entries := new EntryTable();
    var e1 := entries.Insert(Entry(0, 1, 7, "A", "Mathematics", "Monday", 1));
    var e2 := entries.Insert(Entry(0, 2, 6, "A", "English", "Monday", 2));
    var e3 := entries.Insert(Entry(0, 3, 6, "B", "Science", "Monday", 1));
    assert entries.rows == map[1 := e1, 2 := e2, 3 := e3];
    assert NoDoubleBooking(entries.rows);
  }
}
