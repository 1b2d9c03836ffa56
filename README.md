# Timetable API: the scheduling core in Dafny

The Timetable API stores teachers and assigns them to timetable entries. An entry is a grade,
a section, a subject, a weekday and a period. The service refuses an entry that would
double-book either of two things:

- a class slot: (grade, section, day, period);
- a teacher's time: (teacher, day, period).

This project models that core and proves its properties:

- the entry record and the value domains of its columns;
- the request body and its validation constraints;
- the derived queries of the timetable repository;
- the conflict validator;
- the create, update and delete operations of the timetable service;
- the store decisions of the teacher endpoints.

The two persisted tables are modelled as in-memory classes. Each has a map from id to row and
an id counter that only grows (`Tables.EntryTable`, `Tables.TeacherTable`). The service and
the teacher controller are classes that hold these tables and change them in place. Their
pure decisions are separate functions: `Service.Validate`, `Service.CreateCheck` and
`Service.UpdateCheck`. Each method's contract ties its result and the new table to those
functions.

The headline results:

- A failed create, update or delete leaves the entry table exactly as it was.
- A successful create adds exactly one entry under the next id.
- A successful update overwrites exactly that entry and keeps its id.
- A successful delete removes exactly that entry.
- Each of them keeps both uniqueness invariants (`Repository.NoDoubleBooking`) when they
  held before.
- Whenever the invariants hold, the validator's two-step check makes the same decision as the
  direct question "does another entry hold this tuple?" (`Service.DirectCheck`). Step one asks
  whether a match exists; step two, on update, fetches the match and compares its id.

Modelling choices:

- **Entry's teacher.** An entry holds its teacher by key (the `teacher_id` join column), not
  by copy. This mirrors the JPA reference, which sees later edits to the teacher.
- **Single-result queries.** The `findBy…` queries return an Optional. When several rows
  match, the persistence layer throws instead of returning one. `Repository.Find` models this
  with the result `NonUnique`. The validator then reports `NonUniqueResult`. This can only
  happen on an update over a table that already double-books.
- **Validated requests.** The controller validates the request body before calling the
  service. This is modelled as the precondition `req.Valid()` on the service operations.
- **Email uniqueness.** The unique constraint on a teacher's email is enforced by
  `Tables.TeacherTable`. A write that would break it is rejected and changes nothing.
  `updateTeacher` has no email check of its own and relies on this constraint.
- **"Not blank".** The not-blank constraint is modelled as "trimming leaves something": some
  character is above the space character.
- **Two-step check.** One question, "does another entry hold this tuple?", gives the same
  decision as validateNoConflicts only while both invariants hold. On a double-booked table an
  update gets the non-unique error instead (`Service.Validate`).

## Model

| member | source | states |
|---|---|---|
| `Requests.TimetableRequest.Valid` | src/main/java/com/sutram/timetableapi/dto/TimetableRequest.java:9-32 | definition: every constraint on the request body holds |
| `Requests.IsBlank` | src/main/java/com/sutram/timetableapi/dto/TimetableRequest.java:17-24 | definition: trimming removes the whole string, i.e. no character is above the space character |
| `Requests.NotBlank` | src/main/java/com/sutram/timetableapi/dto/TimetableRequest.java:17-24 | definition: the field is present and not blank |
| `Entries.Entry.WellFormed` | src/main/java/com/sutram/timetableapi/model/TimetableEntry.java:27-47 | definition: every column constraint of the entity holds |
| `Entries.IsGrade` | src/main/java/com/sutram/timetableapi/model/TimetableEntry.java:27-30 | definition: a grade is in 1..12 |
| `Entries.IsSection` | src/main/java/com/sutram/timetableapi/model/TimetableEntry.java:32-34 | definition: a section is one upper-case letter |
| `Entries.IsClassDay` | src/main/java/com/sutram/timetableapi/model/TimetableEntry.java:39-42 | definition: a day is one of Monday to Saturday |
| `Entries.IsPeriod` | src/main/java/com/sutram/timetableapi/model/TimetableEntry.java:44-47 | definition: a period is in 1..8 |
| `Repository.Matches` | src/main/java/com/sutram/timetableapi/repository/TimetableRepository.java:13-18 | definition: an entry has the probed slot or teacher-time |
| `Repository.Exists` | src/main/java/com/sutram/timetableapi/repository/TimetableRepository.java:27-30 | definition: the two existsBy queries, some stored entry matches |
| `Repository.Duplicated` | src/main/java/com/sutram/timetableapi/repository/TimetableRepository.java:14-18 | definition: two stored entries match, where a single-result query fails |
| `Repository.NoDoubleBooking` | src/main/java/com/sutram/timetableapi/service/TimetableService.java:91-122 | definition: the two rules the validator enforces, no two entries share a slot or a teacher-time |
| `Service.HeldByOther` | src/main/java/com/sutram/timetableapi/service/TimetableService.java:96-100 | definition: a stored entry other than the excluded one matches the probe |
| `Service.DirectCheck` | src/main/java/com/sutram/timetableapi/service/TimetableService.java:91-122 | definition: the direct decision, slot conflict if another entry holds the slot, else teacher conflict if another holds the teacher-time, else pass |
| `Teachers.EmailInUse` | src/main/java/com/sutram/timetableapi/controller/TeacherController.java:45 | definition: existsByEmail, some stored teacher has the email |
| `Teachers.EmailHeldByOther` | src/main/java/com/sutram/timetableapi/model/Teacher.java:22-23 | definition: a teacher other than the given id has the email |
| `Teachers.UniqueEmails` | src/main/java/com/sutram/timetableapi/model/Teacher.java:22-23 | definition: the unique email column, no two teachers share an email |
| `Entries.ValidDays` | src/main/java/com/sutram/timetableapi/model/TimetableEntry.java:50-52 | the list has six names, no repeats, and a string is in it exactly when it matches the day pattern |
| `Entries.ValidPeriods` | src/main/java/com/sutram/timetableapi/model/TimetableEntry.java:55-57 | the list has eight periods; position i holds i + 1; an integer is in it exactly when it is in 1..8 |
| `Entries.DayNumber` | src/main/java/com/sutram/timetableapi/model/TimetableEntry.java:50-52 | each valid day sits at its own position in the list of valid days |
| `Entries.WeekPeriodInjective` | src/main/java/com/sutram/timetableapi/model/TimetableEntry.java:39-47 | two well-formed entries share a week position only when they share day and period |
| `Requests.TimetableRequest.ToEntry` | src/main/java/com/sutram/timetableapi/service/TimetableService.java:50-56 | an entry built from a valid request meets every column constraint of the entity and carries the request's slot, teacher-time, subject and the resolved teacher |
| `Requests.PatternImpliesNotBlank` | src/main/java/com/sutram/timetableapi/dto/TimetableRequest.java:17-27 | a section or day that matches its pattern is never blank |
| `Repository.Find` | src/main/java/com/sutram/timetableapi/repository/TimetableRepository.java:14-18 | not found iff the matching exists-query is false; the non-unique error iff two rows match; a found entry matches the tuple, is stored, and is every matching row |
| `Repository.FindByTeacherId` | src/main/java/com/sutram/timetableapi/repository/TimetableRepository.java:21 | a stored entry is listed iff its teacher has that id, and only stored entries are listed |
| `Repository.FindByGradeAndSection` | src/main/java/com/sutram/timetableapi/repository/TimetableRepository.java:24 | a stored entry is listed iff it has that grade and section, and only stored entries are listed |
| `Repository.NoDoubleBookingIffNoDuplicates` | src/main/java/com/sutram/timetableapi/repository/TimetableRepository.java:13-18 | both invariants hold iff no slot or teacher-time query matches two rows |
| `Repository.FindUnderNoDoubleBooking` | src/main/java/com/sutram/timetableapi/repository/TimetableRepository.java:14-18 | under the invariants a single-result query never fails and returns the one matching row |
| `Repository.SubjectIgnored` | src/main/java/com/sutram/timetableapi/repository/TimetableRepository.java:26-27 | the tuple queries ignore the subject: entries that differ only in subject match the same probes |
| `Repository.TeacherTimetableShowsBusyTimes` | src/main/java/com/sutram/timetableapi/repository/TimetableRepository.java:20-30 | a teacher is busy at a day and period iff the teacher's list has an entry at that day and period |
| `Repository.SectionTimetableShowsTakenSlots` | src/main/java/com/sutram/timetableapi/repository/TimetableRepository.java:23-27 | a slot is taken iff the section's list has an entry at that day and period |
| `Repository.TeacherTimetableFitsWeek` | src/main/java/com/sutram/timetableapi/repository/TimetableRepository.java:20-21 | under the invariants a teacher's list has at most 6 × 8 entries |
| `Repository.SectionTimetableFitsWeek` | src/main/java/com/sutram/timetableapi/repository/TimetableRepository.java:23-24 | under the invariants a class section's list has at most 6 × 8 entries |
| `Repository.WeekHoldsAtMost` | src/main/java/com/sutram/timetableapi/model/TimetableEntry.java:39-47 | entries at pairwise different teaching periods number at most days × periods |
| `Service.CheckProbe` | src/main/java/com/sutram/timetableapi/service/TimetableService.java:93-106 | on create, or when no two rows match: a conflict iff another entry holds the tuple; on an update where two rows match: the non-unique error |
| `Service.Validate` | src/main/java/com/sutram/timetableapi/service/TimetableService.java:91-123 | on create, and on update under the invariants, equals the direct decision (slot first, then teacher-time); fails only with the two conflicts or the non-unique error, and the latter only on an update over a double-booked table |
| `Service.CreateCheck` | src/main/java/com/sutram/timetableapi/service/TimetableService.java:41-47 | teacher not found iff the teacher is absent; for a known teacher: slot conflict iff the slot is taken; teacher conflict iff the slot is free and the teacher-time is taken; pass iff both are free |
| `Service.UpdateCheck` | src/main/java/com/sutram/timetableapi/service/TimetableService.java:61-71 | entry not found iff the id is absent, checked before the teacher; then teacher not found iff the teacher is absent; then, under the invariants, the decision that excludes the entry itself |
| `Service.SlotConflictReportedFirst` | src/main/java/com/sutram/timetableapi/service/TimetableService.java:91-122 | when another entry holds the slot, a slot conflict is reported whatever the teacher-time |
| `Service.SelfUpdateNeverConflicts` | src/main/java/com/sutram/timetableapi/service/TimetableService.java:96-118 | updating an entry to its own slot and teacher-time passes the validator |
| `Service.UpdateOntoTakenSlot` | src/main/java/com/sutram/timetableapi/service/TimetableService.java:96-102 | updating onto a slot held by a different entry is a slot conflict |
| `Service.UpdateOntoBusyTeacher` | src/main/java/com/sutram/timetableapi/service/TimetableService.java:112-118 | updating onto a free slot but a teacher-time held by a different entry is a teacher conflict |
| `Service.AdmitKeepsNoDoubleBooking` | src/main/java/com/sutram/timetableapi/service/TimetableService.java:91-122 | writing an entry that no other entry clashes with keeps both invariants |
| `Service.CreateKeepsNoDoubleBooking` | src/main/java/com/sutram/timetableapi/service/TimetableService.java:41-58 | a create that passes its checks keeps both invariants |
| `Service.UpdateKeepsNoDoubleBooking` | src/main/java/com/sutram/timetableapi/service/TimetableService.java:61-81 | an update that passes its checks keeps both invariants |
| `Service.RemoveKeepsNoDoubleBooking` | src/main/java/com/sutram/timetableapi/service/TimetableService.java:84-89 | removing an entry keeps both invariants |
| `Service.TimetableService.GetAllTimetableEntries` | src/main/java/com/sutram/timetableapi/service/TimetableService.java:23-26 | every stored entry is returned and nothing else |
| `Service.TimetableService.GetTimetableEntryById` | src/main/java/com/sutram/timetableapi/service/TimetableService.java:28-31 | present iff the id is stored, and then that entry |
| `Service.TimetableService.GetTimetableByTeacher` | src/main/java/com/sutram/timetableapi/service/TimetableService.java:33-35 | passes the repository's findByTeacherId through |
| `Service.TimetableService.GetTimetableByGradeAndSection` | src/main/java/com/sutram/timetableapi/service/TimetableService.java:37-39 | passes the repository's findByGradeAndSection through |
| `Service.TimetableService.CreateTimetableEntry` | src/main/java/com/sutram/timetableapi/service/TimetableService.java:41-59 | a failed check returns its error and leaves the table unchanged; otherwise exactly one new entry with the request's fields and the resolved teacher is added under the next id; keeps both invariants |
| `Service.TimetableService.UpdateTimetableEntry` | src/main/java/com/sutram/timetableapi/service/TimetableService.java:61-82 | a failed check returns its error and leaves the table unchanged; otherwise teacher, grade, section, subject, day and period of that id are overwritten, the id is kept, other entries are untouched; keeps both invariants |
| `Service.TimetableService.DeleteTimetableEntry` | src/main/java/com/sutram/timetableapi/service/TimetableService.java:84-89 | an absent id is not found and nothing is removed; otherwise exactly that id is removed; keeps both invariants |
| `Tables.EntryTable.Insert` | src/main/java/com/sutram/timetableapi/service/TimetableService.java:58 | a new row takes the counter's value as its id, which was free; nothing else changes |
| `Tables.EntryTable.Put` | src/main/java/com/sutram/timetableapi/service/TimetableService.java:81 | the stored row is overwritten, nothing else changes |
| `Tables.EntryTable.Remove` | src/main/java/com/sutram/timetableapi/service/TimetableService.java:88 | exactly that key is removed |
| `Tables.TeacherTable.Insert` | src/main/java/com/sutram/timetableapi/model/Teacher.java:22-23 | an email in use is refused by the unique column and nothing changes; otherwise the teacher is stored under the next id |
| `Tables.TeacherTable.Put` | src/main/java/com/sutram/timetableapi/controller/TeacherController.java:62 | an email held by another teacher is refused and nothing changes; otherwise the row is overwritten |
| `Tables.TeacherTable.Remove` | src/main/java/com/sutram/timetableapi/controller/TeacherController.java:77 | exactly that key is removed |
| `TeacherControl.TeacherController.CreateTeacher` | src/main/java/com/sutram/timetableapi/controller/TeacherController.java:43-53 | an email already stored is rejected as a duplicate and nothing is saved; otherwise the teacher is saved and returned with its assigned id |
| `TeacherControl.TeacherController.UpdateTeacher` | src/main/java/com/sutram/timetableapi/controller/TeacherController.java:56-69 | an absent id is not found and changes nothing; otherwise only name and email are overwritten and the id is kept; an email held by another teacher fails with the table's constraint violation, never with the endpoint's duplicate-email error, and changes nothing |
| `TeacherControl.TeacherController.DeleteTeacher` | src/main/java/com/sutram/timetableapi/controller/TeacherController.java:72-82 | an absent id is not found and removes nothing; otherwise exactly that teacher is removed |
| `TeacherControl.UpdateAloneCanDuplicateEmail` | src/main/java/com/sutram/timetableapi/controller/TeacherController.java:58-63 | a side remark on the overwrite: written without the column constraint it could give two teachers one email (what the endpoint actually does is stated by `UpdateTeacher`) |
| `TeacherControl.CreateCheckCoversConstraint` | src/main/java/com/sutram/timetableapi/controller/TeacherController.java:45-48 | on create the endpoint's own email check already keeps emails unique |
| `Scenarios.Mathematics` | src/test/java/com/sutram/timetableapi/service/TimetableServiceTest.java:45-51 | the request used throughout the service's tests is valid |
| `Scenarios.RegisterTeachers` | src/test/java/com/sutram/timetableapi/service/TimetableServiceTest.java:42-43 | registering the tests' two teachers yields ids 1 and 2; a third registration with a used email is a duplicate |

`Scenarios.CreateScenario`, `Scenarios.UpdateDeleteScenario`, `Scenarios.UpdateConflictScenario`,
`Scenarios.QueryScenario` and `Scenarios.SampleDataIsConsistent` are client code without
contracts. Their assertions are checked against the contracts above. They cover the outcomes
that the fourteen tests of TimetableServiceTest.java expect:

- `CreateScenario`: create success, teacher not found, slot occupied, teacher busy.
- `UpdateDeleteScenario`: update success, entry not found on update, delete success, entry not
  found on delete.
- `UpdateConflictScenario`: update onto an occupied slot, update onto a busy teacher-time.
- `QueryScenario`: the four getters.

The tests stub the repository, and their two update-conflict stubs describe a table that
double-books. The scenarios instead build a table that keeps both invariants and reach the
same errors from it. `SampleDataIsConsistent` shows that the three start-up sample entries
(DataLoader.java:39-64) satisfy both invariants.

## Left out

- HTTP routing, response status codes and the response envelope: these are transport only.
- The bean-validation engine and its regular expressions. Validation becomes the predicate
  `TimetableRequest.Valid()`, and the service operations require it. The patterns become
  explicit membership tests.
- Persistence mechanics: JPA, identity generation, autowiring and Lombok. The tables are
  in-memory maps with one counter each. A rejected teacher insert leaves the counter unchanged;
  some databases consume an identity value even then.
- The order of list results. findAll, findByTeacherId and findByGradeAndSection return sets;
  the database gives no order.
- The check-then-save race between concurrent writers. The model is sequential.
- What happens to entries when their teacher is deleted. The code sets no cascade policy. Any
  foreign-key refusal comes from the database, which is not modelled.
- Start-up seeding and its console output. The seed rows are used only as a witness state.
- Exact error message strings. Errors are the kinds in `Outcomes.Error`, with their ids.
- The read-only teacher endpoints getAllTeachers and getTeacherById. They are plain
  passthroughs to the table.
- Teacher bodies that carry their own id, or a null name or email. These reach the database
  unchecked, and what it does with them is not modelled.
- Integer widths. Ids, grades and periods are unbounded integers; Java's 64-bit id overflow
  is not modelled.
- Entries.ValidDays: its contract states how many days there are, that none repeats, and
  which names are valid. The week order Monday to Saturday is stated only through
  `Entries.DayNumber`.
