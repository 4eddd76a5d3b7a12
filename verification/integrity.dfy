/** Every operation of the schema keeps the database consistent, and the
    deletions remove exactly what the foreign-key rules say. */
module Integrity {
  import opened Common
  import opened Models
  import opened Schema

  // ================================================================ insertions

  lemma AssignedIdNonEmpty(prefix: string, supplied: string, last: Option<string>)
    requires AssignId(prefix, supplied, last).Ok?
    ensures AssignId(prefix, supplied, last).value != []
  {
    if supplied == [] {
      var n: nat :| n >= 1 && NextId(prefix, last).value == FormatId(prefix, n);
    }
  }

  /** A new student is appended with the next primary key and the assigned
      identifier; nothing else changes and the tables stay consistent. */
  lemma AddStudentConsistent(t: Tables, name: string, supplied: string, grade: int, dob: Option<Date>,
                             feesDue: int, feesPaid: int, enrolledOn: Date)
    requires Consistent(t)
    requires AddStudent(t, name, supplied, grade, dob, feesDue, feesPaid, enrolledOn).Ok?
    ensures var u := AddStudent(t, name, supplied, grade, dob, feesDue, feesPaid, enrolledOn).value;
      && Consistent(u)
      && u.students == t.students + [Student(t.nextPk, name, AssignId(StudentPrefix, supplied, LastStudentId(t)).value,
                                             grade, dob, feesDue, feesPaid, enrolledOn)]
      && u.(students := t.students, nextPk := t.nextPk) == t
  {
    var id := AssignId(StudentPrefix, supplied, LastStudentId(t)).value;
    var s := Student(t.nextPk, name, id, grade, dob, feesDue, feesPaid, enrolledOn);
    AddStudentAppends(t, name, supplied, grade, dob, feesDue, feesPaid, enrolledOn);
    AssignedIdNonEmpty(StudentPrefix, supplied, LastStudentId(t));
    AppendStudentConsistent(t, s);
  }

  /** The outcome of an insertion, branch by branch. */
  lemma AddStudentOutcome(t: Tables, name: string, supplied: string, grade: int, dob: Option<Date>,
                          feesDue: int, feesPaid: int, enrolledOn: Date)
    ensures var a := AssignId(StudentPrefix, supplied, LastStudentId(t));
      var o := AddStudent(t, name, supplied, grade, dob, feesDue, feesPaid, enrolledOn);
      && (grade !in GradePks(t) ==> o == Err(NotFound))
      && (grade in GradePks(t) && a.Err? ==> o == Err(a.error))
      && (grade in GradePks(t) && a.Ok? && HasStudentId(t, a.value) ==> o == Err(DuplicateStudentId))
      && (grade in GradePks(t) && a.Ok? && !HasStudentId(t, a.value) ==>
            o == Ok(t.(students := t.students + [Student(t.nextPk, name, a.value, grade, dob, feesDue, feesPaid, enrolledOn)],
                       nextPk := t.nextPk + 1)))
  {
  }

  /** The outcome of a staff insertion, branch by branch. */
  lemma AddStaffOutcome(t: Tables, name: string, supplied: string, role: string, dateJoined: Option<Date>)
    ensures var a := AssignId(StaffPrefix, supplied, LastStaffId(t));
      var o := AddStaff(t, name, supplied, role, dateJoined);
      && (a.Err? ==> o == Err(a.error))
      && (a.Ok? && HasStaffId(t, a.value) ==> o == Err(DuplicateStaffId))
      && (a.Ok? && !HasStaffId(t, a.value) ==>
            o == Ok(t.(staff := t.staff + [Staff(t.nextPk, name, a.value, role, dateJoined)], nextPk := t.nextPk + 1)))
  {
  }

  /** A successful insertion appends the row with the assigned identifier,
      which no student held before, in a grade that exists. */
  lemma AddStudentAppends(t: Tables, name: string, supplied: string, grade: int, dob: Option<Date>,
                          feesDue: int, feesPaid: int, enrolledOn: Date)
    requires AddStudent(t, name, supplied, grade, dob, feesDue, feesPaid, enrolledOn).Ok?
    ensures AssignId(StudentPrefix, supplied, LastStudentId(t)).Ok?
    ensures var id := AssignId(StudentPrefix, supplied, LastStudentId(t)).value;
      && grade in GradePks(t) && !HasStudentId(t, id)
      && AddStudent(t, name, supplied, grade, dob, feesDue, feesPaid, enrolledOn).value
         == t.(students := t.students + [Student(t.nextPk, name, id, grade, dob, feesDue, feesPaid, enrolledOn)],
               nextPk := t.nextPk + 1)
  {
  }

  /** A new student row under the next primary key, in an existing grade,
      with a fresh non-empty identifier, keeps the tables consistent. */
  lemma AppendStudentConsistent(t: Tables, s: Student)
    requires Consistent(t)
    requires s.pk == t.nextPk && s.grade in GradePks(t) && s.studentId != [] && !HasStudentId(t, s.studentId)
    ensures Consistent(t.(students := t.students + [s], nextPk := t.nextPk + 1))
  {
    var u := t.(students := t.students + [s], nextPk := t.nextPk + 1);
    AppendKeepsIncreasing(t.students, s, StudentKey);
    assert KeysOrdered(u);
    assert StudentPks(t) <= StudentPks(u);
    assert StudentRefs(u);
    AppendKeepsDistinct(t.students, s, StudentIdOf);
  }

  lemma AddStaffConsistent(t: Tables, name: string, supplied: string, role: string, dateJoined: Option<Date>)
    requires Consistent(t)
    requires AddStaff(t, name, supplied, role, dateJoined).Ok?
    ensures var u := AddStaff(t, name, supplied, role, dateJoined).value;
      && Consistent(u)
      && u.staff == t.staff + [Staff(t.nextPk, name, AssignId(StaffPrefix, supplied, LastStaffId(t)).value, role, dateJoined)]
      && u.(staff := t.staff, nextPk := t.nextPk) == t
  {
    AddStaffAppends(t, name, supplied, role, dateJoined);
    AssignedIdNonEmpty(StaffPrefix, supplied, LastStaffId(t));
    AppendStaffConsistent(t, Staff(t.nextPk, name, AssignId(StaffPrefix, supplied, LastStaffId(t)).value, role, dateJoined));
  }

  /** A successful insertion appends the row with the assigned identifier,
      which no staff member held before. */
  lemma AddStaffAppends(t: Tables, name: string, supplied: string, role: string, dateJoined: Option<Date>)
    requires AddStaff(t, name, supplied, role, dateJoined).Ok?
    ensures AssignId(StaffPrefix, supplied, LastStaffId(t)).Ok?
    ensures var id := AssignId(StaffPrefix, supplied, LastStaffId(t)).value;
      && !HasStaffId(t, id)
      && AddStaff(t, name, supplied, role, dateJoined).value
         == t.(staff := t.staff + [Staff(t.nextPk, name, id, role, dateJoined)], nextPk := t.nextPk + 1)
  {
  }

  /** A new staff row under the next primary key with a fresh non-empty
      identifier keeps the tables consistent. */
  lemma AppendStaffConsistent(t: Tables, s: Staff)
    requires Consistent(t)
    requires s.pk == t.nextPk && s.staffId != [] && !HasStaffId(t, s.staffId)
    ensures Consistent(t.(staff := t.staff + [s], nextPk := t.nextPk + 1))
  {
    var u := t.(staff := t.staff + [s], nextPk := t.nextPk + 1);
    AppendKeepsIncreasing(t.staff, s, StaffKey);
    assert KeysOrdered(u);
    assert StaffPks(t) <= StaffPks(u);
    assert StaffRefs(u);
    AppendKeepsDistinct(t.staff, s, StaffIdOf);
  }

  lemma AddGradeConsistent(t: Tables, name: string, capacity: nat)
    requires Consistent(t) && AddGrade(t, name, capacity).Ok?
    ensures Consistent(AddGrade(t, name, capacity).value)
  {
    AddGradeAppends(t, name, capacity);
    AppendGradeConsistent(t, Grade(t.nextPk, name, capacity));
  }

  lemma AddGradeAppends(t: Tables, name: string, capacity: nat)
    requires AddGrade(t, name, capacity).Ok?
    ensures !exists y :: y in t.grades && y.name == name
    ensures AddGrade(t, name, capacity).value
            == t.(grades := t.grades + [Grade(t.nextPk, name, capacity)], nextPk := t.nextPk + 1)
  {
  }

  /** A new grade under the next primary key with an unused name keeps the
      tables consistent. */
  lemma AppendGradeConsistent(t: Tables, g: Grade)
    requires Consistent(t)
    requires g.pk == t.nextPk && !exists y :: y in t.grades && y.name == g.name
    ensures Consistent(t.(grades := t.grades + [g], nextPk := t.nextPk + 1))
  {
    var u := t.(grades := t.grades + [g], nextPk := t.nextPk + 1);
    AppendKeepsIncreasing(t.grades, g, GradeKey);
    assert KeysOrdered(u);
    assert GradePks(t) <= GradePks(u);
    assert GradeRefs(u);
    AppendKeepsDistinct(t.grades, g, GradeName);
  }

  lemma AddNotificationConsistent(t: Tables, message: string, date: Date, targetGrade: Option<int>, createdBy: Option<int>)
    requires Consistent(t) && AddNotification(t, message, date, targetGrade, createdBy).Ok?
    ensures Consistent(AddNotification(t, message, date, targetGrade, createdBy).value)
  {
    AppendKeepsIncreasing(t.notifications, Notification(t.nextPk, message, date, targetGrade, createdBy), NotificationKey);
  }

  lemma AddEventConsistent(t: Tables, title: string, targetGrades: set<int>, createdBy: Option<int>)
    requires Consistent(t) && AddEvent(t, title, targetGrades, createdBy).Ok?
    ensures Consistent(AddEvent(t, title, targetGrades, createdBy).value)
  {
    AppendKeepsIncreasing(t.events, Event(t.nextPk, title, targetGrades, createdBy), EventKey);
  }

  lemma AddActivityConsistent(t: Tables, title: string, instructor: Option<int>, maxParticipants: nat)
    requires Consistent(t) && AddActivity(t, title, instructor, maxParticipants).Ok?
    ensures Consistent(AddActivity(t, title, instructor, maxParticipants).value)
  {
    var u := AddActivity(t, title, instructor, maxParticipants).value;
    AppendKeepsIncreasing(t.activities, Activity(t.nextPk, title, instructor, maxParticipants, true), ActivityKey);
    assert ActivityPks(t) <= ActivityPks(u);
  }

  lemma AddParticipantConsistent(t: Tables, activity: int, student: int)
    requires Consistent(t) && AddParticipant(t, activity, student).Ok?
    ensures Consistent(AddParticipant(t, activity, student).value)
  {
    var p := Participant(t.nextPk, activity, student, true);
    AppendKeepsIncreasing(t.participants, p, ParticipantKey);
    AppendKeepsDistinct(t.participants, p, Membership);
  }

  lemma AddPaymentConsistent(t: Tables, student: int, amount: int, recordedBy: Option<int>)
    requires Consistent(t) && AddPayment(t, student, amount, recordedBy).Ok?
    ensures Consistent(AddPayment(t, student, amount, recordedBy).value)
  {
    AppendKeepsIncreasing(t.payments, Payment(t.nextPk, student, amount, recordedBy), PaymentKey);
  }

  /** A notification is appended under the next primary key with the
      submitted message, date, target grade and author; no other table
      changes. */
  lemma AddNotificationAppends(t: Tables, message: string, date: Date, targetGrade: Option<int>, createdBy: Option<int>)
    requires AddNotification(t, message, date, targetGrade, createdBy).Ok?
    ensures var u := AddNotification(t, message, date, targetGrade, createdBy).value;
      && u.notifications == t.notifications + [Notification(t.nextPk, message, date, targetGrade, createdBy)]
      && u.nextPk == t.nextPk + 1
      && u.(notifications := t.notifications, nextPk := t.nextPk) == t
  {
  }

  /** An event is appended under the next primary key with its title,
      target grades and author; no other table changes. */
  lemma AddEventAppends(t: Tables, title: string, targetGrades: set<int>, createdBy: Option<int>)
    requires AddEvent(t, title, targetGrades, createdBy).Ok?
    ensures var u := AddEvent(t, title, targetGrades, createdBy).value;
      && u.events == t.events + [Event(t.nextPk, title, targetGrades, createdBy)]
      && u.nextPk == t.nextPk + 1
      && u.(events := t.events, nextPk := t.nextPk) == t
  {
  }

  /** An activity is appended under the next primary key, active (the
      field's default), with its title, instructor and maximum; no other
      table changes. */
  lemma AddActivityAppends(t: Tables, title: string, instructor: Option<int>, maxParticipants: nat)
    requires AddActivity(t, title, instructor, maxParticipants).Ok?
    ensures var u := AddActivity(t, title, instructor, maxParticipants).value;
      && u.activities == t.activities + [Activity(t.nextPk, title, instructor, maxParticipants, true)]
      && u.nextPk == t.nextPk + 1
      && u.(activities := t.activities, nextPk := t.nextPk) == t
  {
  }

  /** Joining appends an active participant row under the next primary
      key; the activity joined has one place fewer, every other activity
      keeps its count, and no other table changes. */
  lemma AddParticipantAppends(t: Tables, activity: int, student: int)
    requires AddParticipant(t, activity, student).Ok?
    ensures var u := AddParticipant(t, activity, student).value;
      && u.participants == t.participants + [Participant(t.nextPk, activity, student, true)]
      && u.nextPk == t.nextPk + 1
      && u.(participants := t.participants, nextPk := t.nextPk) == t
      && (forall a :: a in t.activities && a.pk == activity ==>
            ActivityAvailableSpots(a, u.participants) == ActivityAvailableSpots(a, t.participants) - 1)
      && (forall a :: a in t.activities && a.pk != activity ==>
            ActivityAvailableSpots(a, u.participants) == ActivityAvailableSpots(a, t.participants))
  {
    var p := Participant(t.nextPk, activity, student, true);
    forall a | a in t.activities
      ensures ActivityAvailableSpots(a, t.participants + [p])
              == ActivityAvailableSpots(a, t.participants) - (if a.pk == activity then 1 else 0)
    {
      FilterAppend(t.participants, p, (x: Participant) => x.activity == a.pk);
    }
  }

  /** A payment is appended under the next primary key with the student,
      amount and recorder given; no other table changes. */
  lemma AddPaymentAppends(t: Tables, student: int, amount: int, recordedBy: Option<int>)
    requires AddPayment(t, student, amount, recordedBy).Ok?
    ensures var u := AddPayment(t, student, amount, recordedBy).value;
      && u.payments == t.payments + [Payment(t.nextPk, student, amount, recordedBy)]
      && u.nextPk == t.nextPk + 1
      && u.(payments := t.payments, nextPk := t.nextPk) == t
  {
  }

  // ================================================================ identifiers

  /** Students hold STU-0001, STU-0002, ... in insertion order. */
  ghost predicate ConsecutiveStudentIds(t: Tables)
  {
    forall i :: 0 <= i < |t.students| ==> t.students[i].studentId == FormatId(StudentPrefix, i + 1)
  }

  /** Inserting students without supplied identifiers into a table that was
      filled the same way continues the sequence: the n-th student gets
      STU-n, zero-padded to four digits. */
  lemma AddStudentContinuesSequence(t: Tables, name: string, grade: int, dob: Option<Date>,
                                    feesDue: int, feesPaid: int, enrolledOn: Date)
    requires ConsecutiveStudentIds(t)
    requires grade in GradePks(t)
    ensures var r := AddStudent(t, name, [], grade, dob, feesDue, feesPaid, enrolledOn);
      r.Ok? && ConsecutiveStudentIds(r.value)
      && r.value.students[|t.students|].studentId == FormatId(StudentPrefix, |t.students| + 1)
  {
    var n := |t.students|;
    var id := FormatId(StudentPrefix, n + 1);
    ConsecutiveNextId(t);
    ConsecutiveNoClash(t);
    AddStudentFreshId(t, name, grade, dob, feesDue, feesPaid, enrolledOn, id);
    ConsecutiveAppend(t, Student(t.nextPk, name, id, grade, dob, feesDue, feesPaid, enrolledOn));
  }

  lemma ConsecutiveAppend(t: Tables, s: Student)
    requires ConsecutiveStudentIds(t)
    requires s.studentId == FormatId(StudentPrefix, |t.students| + 1)
    ensures ConsecutiveStudentIds(t.(students := t.students + [s], nextPk := t.nextPk + 1))
  {
  }

  lemma AddStudentFreshId(t: Tables, name: string, grade: int, dob: Option<Date>,
                          feesDue: int, feesPaid: int, enrolledOn: Date, id: string)
    requires AssignId(StudentPrefix, [], LastStudentId(t)) == Ok(id)
    requires !HasStudentId(t, id)
    requires grade in GradePks(t)
    ensures AddStudent(t, name, [], grade, dob, feesDue, feesPaid, enrolledOn)
      == Ok(t.(students := t.students + [Student(t.nextPk, name, id, grade, dob, feesDue, feesPaid, enrolledOn)],
               nextPk := t.nextPk + 1))
  {
  }

  lemma ConsecutiveNextId(t: Tables)
    requires ConsecutiveStudentIds(t)
    ensures AssignId(StudentPrefix, [], LastStudentId(t)) == Ok(FormatId(StudentPrefix, |t.students| + 1))
  {
    var n := |t.students|;
    if n == 0 {
      assert FormatId(StudentPrefix, 1) == StudentPrefix + "-0001";
    } else {
      assert LastStudentId(t) == Some(FormatId(StudentPrefix, n));
      NextIdIncrements(StudentPrefix, StudentPrefix, n);
    }
  }

  lemma ConsecutiveNoClash(t: Tables)
    requires ConsecutiveStudentIds(t)
    ensures !HasStudentId(t, FormatId(StudentPrefix, |t.students| + 1))
  {
    var n := |t.students|;
    if HasStudentId(t, FormatId(StudentPrefix, n + 1)) {
      var s :| s in t.students && s.studentId == FormatId(StudentPrefix, n + 1);
      var i :| 0 <= i < |t.students| && t.students[i] == s;
      FormatIdInjective(StudentPrefix, i + 1, n + 1);
    }
  }

  /** Different numbers give different identifiers. */
  lemma FormatIdInjective(prefix: string, m: nat, n: nat)
    requires FormatId(prefix, m) == FormatId(prefix, n)
    ensures m == n
  {
    var a := FormatId(prefix, m);
    assert a[|prefix| + 1..] == Text.ZeroPad(m, 4);
    assert FormatId(prefix, n)[|prefix| + 1..] == Text.ZeroPad(n, 4);
  }

  /** The assigner trusts the last row, not the largest suffix: after a
      supplied STU-0002 followed by a generated STU-0001 the next generated
      identifier is STU-0002 again, which the unique column rejects. */
  lemma LastRowDecides(t: Tables, a: Student, b: Student, name: string, dob: Option<Date>,
                       feesDue: int, feesPaid: int, enrolledOn: Date)
    requires t.students == [a, b]
    requires a.studentId == FormatId(StudentPrefix, 2) && b.studentId == FormatId(StudentPrefix, 1)
    requires a.grade in GradePks(t)
    ensures AddStudent(t, name, [], a.grade, dob, feesDue, feesPaid, enrolledOn) == Err(DuplicateStudentId)
  {
    assert LastStudentId(t) == Some(FormatId(StudentPrefix, 1));
    NextIdIncrements(StudentPrefix, StudentPrefix, 1);
    assert HasStudentId(t, FormatId(StudentPrefix, 2)) by { assert t.students[0] == a; }
    AddStudentOutcome(t, name, [], a.grade, dob, feesDue, feesPaid, enrolledOn);
  }

  // ================================================================ deletions

  /** Deleting a grade removes exactly that grade, exactly its students and
      exactly the payments and participant rows of those students; staff
      and activities are untouched; notifications aimed at the grade lose
      their target, events stop listing it, and nothing else changes. */
  lemma DeleteGradeRemovesExactly(t: Tables, g: int)
    requires DeleteGrade(t, g).Ok?
    ensures var u := DeleteGrade(t, g).value;
      && (forall x :: x in u.grades <==> x in t.grades && x.pk != g)
      && (forall s :: s in u.students <==> s in t.students && s.grade != g)
      && (forall p :: p in u.payments <==> p in t.payments && p.student !in StudentsOfGrade(t, g))
      && (forall p :: p in u.participants <==> p in t.participants && p.student !in StudentsOfGrade(t, g))
      && u.staff == t.staff && u.activities == t.activities
      && u.notifications == ClearTargetGrade(t.notifications, g)
      && u.events == DropTargetGrade(t.events, g)
      && u.nextPk == t.nextPk
      && (forall n :: n in u.notifications ==> n.targetGrade != Some(g))
      && (forall e :: e in u.events ==> g !in e.targetGrades)
  {
    var u := DeleteGrade(t, g).value;
    var gone := StudentsOfGrade(t, g);
    forall x ensures x in u.grades <==> x in t.grades && x.pk != g {
      if x in u.grades { FilterOnly(t.grades, (y: Grade) => y.pk != g, x); }
      if x in t.grades && x.pk != g { FilterKeeps(t.grades, (y: Grade) => y.pk != g, x); }
    }
    forall x ensures x in u.students <==> x in t.students && x.grade != g {
      if x in u.students { FilterOnly(t.students, (y: Student) => y.grade != g, x); }
      if x in t.students && x.grade != g { FilterKeeps(t.students, (y: Student) => y.grade != g, x); }
    }
    forall x ensures x in u.payments <==> x in t.payments && x.student !in gone {
      if x in u.payments { FilterOnly(t.payments, (y: Payment) => y.student !in gone, x); }
      if x in t.payments && x.student !in gone { FilterKeeps(t.payments, (y: Payment) => y.student !in gone, x); }
    }
    forall x ensures x in u.participants <==> x in t.participants && x.student !in gone {
      if x in u.participants { FilterOnly(t.participants, (y: Participant) => y.student !in gone, x); }
      if x in t.participants && x.student !in gone { FilterKeeps(t.participants, (y: Participant) => y.student !in gone, x); }
    }
  }

  lemma GradePksAfterDelete(t: Tables, g: int)
    requires DeleteGrade(t, g).Ok?
    ensures GradePks(DeleteGrade(t, g).value) == GradePks(t) - {g}
  {
    var u := DeleteGrade(t, g).value;
    DeleteGradeRemovesExactly(t, g);
    forall k | k in GradePks(t) - {g} ensures k in GradePks(u) {
      var x :| x in t.grades && x.pk == k;
      assert x in u.grades;
    }
  }

  lemma DeleteGradeConsistent(t: Tables, g: int)
    requires Consistent(t) && DeleteGrade(t, g).Ok?
    ensures Consistent(DeleteGrade(t, g).value)
  {
    DeleteGradeKeys(t, g);
    DeleteGradeRefs(t, g);
    DeleteGradeStudentRefs(t, g);
    DeleteGradeUnique(t, g);
  }

  lemma DeleteGradeKeys(t: Tables, g: int)
    requires KeysOrdered(t) && DeleteGrade(t, g).Ok?
    ensures KeysOrdered(DeleteGrade(t, g).value)
  {
    var u := DeleteGrade(t, g).value;
    var gone := StudentsOfGrade(t, g);
    DeleteGradeRemovesExactly(t, g);
    FilterKeepsIncreasing(t.grades, (y: Grade) => y.pk != g, GradeKey);
    FilterKeepsIncreasing(t.students, (y: Student) => y.grade != g, StudentKey);
    FilterKeepsIncreasing(t.payments, (y: Payment) => y.student !in gone, PaymentKey);
    FilterKeepsIncreasing(t.participants, (y: Participant) => y.student !in gone, ParticipantKey);
    assert IncreasingBy(u.notifications, NotificationKey);
    assert IncreasingBy(u.events, EventKey);
  }

  lemma DeleteGradeRefs(t: Tables, g: int)
    requires GradeRefs(t) && StaffRefs(t) && DeleteGrade(t, g).Ok?
    ensures GradeRefs(DeleteGrade(t, g).value) && StaffRefs(DeleteGrade(t, g).value)
  {
    var u := DeleteGrade(t, g).value;
    DeleteGradeRemovesExactly(t, g);
    GradePksAfterDelete(t, g);
    forall n | n in u.notifications ensures Resolves(n.targetGrade, GradePks(u)) && Resolves(n.createdBy, StaffPks(u)) {
      var i :| 0 <= i < |u.notifications| && u.notifications[i] == n;
      assert t.notifications[i] in t.notifications;
    }
    forall e | e in u.events ensures e.targetGrades <= GradePks(u) && Resolves(e.createdBy, StaffPks(u)) {
      var i :| 0 <= i < |u.events| && u.events[i] == e;
      assert t.events[i] in t.events;
    }
  }

  lemma DeleteGradeStudentRefs(t: Tables, g: int)
    requires StudentRefs(t) && DeleteGrade(t, g).Ok?
    ensures StudentRefs(DeleteGrade(t, g).value)
  {
    var u := DeleteGrade(t, g).value;
    DeleteGradeRemovesExactly(t, g);
    forall p | p in u.participants ensures p.student in StudentPks(u) {
      var s :| s in t.students && s.pk == p.student;
      assert s in u.students;
    }
    forall p | p in u.payments ensures p.student in StudentPks(u) {
      var s :| s in t.students && s.pk == p.student;
      assert s in u.students;
    }
  }

  lemma DeleteGradeUnique(t: Tables, g: int)
    requires UniqueColumns(t) && DeleteGrade(t, g).Ok?
    ensures UniqueColumns(DeleteGrade(t, g).value)
  {
    var gone := StudentsOfGrade(t, g);
    DeleteGradeRemovesExactly(t, g);
    FilterKeepsDistinct(t.grades, (y: Grade) => y.pk != g, GradeName);
    FilterKeepsDistinct(t.students, (y: Student) => y.grade != g, StudentIdOf);
    FilterKeepsDistinct(t.participants, (y: Participant) => y.student !in gone, Membership);
  }

  /** Deleting a student removes exactly that student and its payments and
      participant rows. */
  lemma DeleteStudentRemovesExactly(t: Tables, x: int)
    requires DeleteStudent(t, x).Ok?
    ensures var u := DeleteStudent(t, x).value;
      && (forall s :: s in u.students <==> s in t.students && s.pk != x)
      && (forall p :: p in u.payments <==> p in t.payments && p.student != x)
      && (forall p :: p in u.participants <==> p in t.participants && p.student != x)
      && u.(students := t.students, payments := t.payments, participants := t.participants) == t
  {
    var u := DeleteStudent(t, x).value;
    forall y ensures y in u.students <==> y in t.students && y.pk != x {
      if y in u.students { FilterOnly(t.students, (s: Student) => s.pk != x, y); }
      if y in t.students && y.pk != x { FilterKeeps(t.students, (s: Student) => s.pk != x, y); }
    }
    forall y ensures y in u.payments <==> y in t.payments && y.student != x {
      if y in u.payments { FilterOnly(t.payments, (p: Payment) => p.student != x, y); }
      if y in t.payments && y.student != x { FilterKeeps(t.payments, (p: Payment) => p.student != x, y); }
    }
    forall y ensures y in u.participants <==> y in t.participants && y.student != x {
      if y in u.participants { FilterOnly(t.participants, (p: Participant) => p.student != x, y); }
      if y in t.participants && y.student != x { FilterKeeps(t.participants, (p: Participant) => p.student != x, y); }
    }
  }

  lemma DeleteStudentKeys(t: Tables, x: int)
    requires KeysOrdered(t) && DeleteStudent(t, x).Ok?
    ensures KeysOrdered(DeleteStudent(t, x).value)
  {
    DeleteStudentRemovesExactly(t, x);
    FilterKeepsIncreasing(t.students, (s: Student) => s.pk != x, StudentKey);
    FilterKeepsIncreasing(t.payments, (p: Payment) => p.student != x, PaymentKey);
    FilterKeepsIncreasing(t.participants, (p: Participant) => p.student != x, ParticipantKey);
  }

  lemma DeleteStudentRefs(t: Tables, x: int)
    requires GradeRefs(t) && StaffRefs(t) && StudentRefs(t) && DeleteStudent(t, x).Ok?
    ensures var u := DeleteStudent(t, x).value;
      GradeRefs(u) && StaffRefs(u) && StudentRefs(u)
  {
    var u := DeleteStudent(t, x).value;
    DeleteStudentRemovesExactly(t, x);
    forall p | p in u.participants ensures p.student in StudentPks(u) {
      var s :| s in t.students && s.pk == p.student;
      assert s in u.students;
    }
    forall p | p in u.payments ensures p.student in StudentPks(u) {
      var s :| s in t.students && s.pk == p.student;
      assert s in u.students;
    }
  }

  lemma DeleteStudentUnique(t: Tables, x: int)
    requires UniqueColumns(t) && DeleteStudent(t, x).Ok?
    ensures UniqueColumns(DeleteStudent(t, x).value)
  {
    DeleteStudentRemovesExactly(t, x);
    FilterKeepsDistinct(t.students, (s: Student) => s.pk != x, StudentIdOf);
    FilterKeepsDistinct(t.participants, (p: Participant) => p.student != x, Membership);
  }

  lemma DeleteStudentConsistent(t: Tables, x: int)
    requires Consistent(t) && DeleteStudent(t, x).Ok?
    ensures Consistent(DeleteStudent(t, x).value)
  {
    DeleteStudentKeys(t, x);
    DeleteStudentRefs(t, x);
    DeleteStudentUnique(t, x);
  }

  /** Deleting an activity removes exactly it and its participant rows. */
  lemma DeleteActivityRemovesExactly(t: Tables, x: int)
    requires DeleteActivity(t, x).Ok?
    ensures var u := DeleteActivity(t, x).value;
      && (forall a :: a in u.activities <==> a in t.activities && a.pk != x)
      && (forall p :: p in u.participants <==> p in t.participants && p.activity != x)
      && u.(activities := t.activities, participants := t.participants) == t
  {
    var u := DeleteActivity(t, x).value;
    forall y ensures y in u.activities <==> y in t.activities && y.pk != x {
      if y in u.activities { FilterOnly(t.activities, (a: Activity) => a.pk != x, y); }
      if y in t.activities && y.pk != x { FilterKeeps(t.activities, (a: Activity) => a.pk != x, y); }
    }
    forall y ensures y in u.participants <==> y in t.participants && y.activity != x {
      if y in u.participants { FilterOnly(t.participants, (p: Participant) => p.activity != x, y); }
      if y in t.participants && y.activity != x { FilterKeeps(t.participants, (p: Participant) => p.activity != x, y); }
    }
  }

  lemma DeleteActivityConsistent(t: Tables, x: int)
    requires Consistent(t) && DeleteActivity(t, x).Ok?
    ensures Consistent(DeleteActivity(t, x).value)
  {
    var u := DeleteActivity(t, x).value;
    DeleteActivityRemovesExactly(t, x);
    FilterKeepsIncreasing(t.activities, (a: Activity) => a.pk != x, ActivityKey);
    FilterKeepsIncreasing(t.participants, (p: Participant) => p.activity != x, ParticipantKey);
    assert KeysOrdered(u);
    forall p | p in u.participants ensures p.activity in ActivityPks(u) {
      var a :| a in t.activities && a.pk == p.activity;
      assert a in u.activities;
    }
    forall a | a in u.activities ensures Resolves(a.instructor, StaffPks(u)) {
    }
    FilterKeepsDistinct(t.participants, (p: Participant) => p.activity != x, Membership);
  }

  /** Deleting a staff member removes that one row and no other: every
      other table keeps its length and its rows, except that each reference
      to the deleted member is now null. */
  lemma DeleteStaffOnlyUnlinks(t: Tables, x: int)
    requires DeleteStaff(t, x).Ok?
    ensures var u := DeleteStaff(t, x).value;
      && (forall s :: s in u.staff <==> s in t.staff && s.pk != x)
      && Subsequence(u.staff, t.staff)
      && u.grades == t.grades && u.students == t.students && u.participants == t.participants
      && u.nextPk == t.nextPk
      && |u.notifications| == |t.notifications| && |u.events| == |t.events|
      && |u.activities| == |t.activities| && |u.payments| == |t.payments|
      && (forall i :: 0 <= i < |t.notifications| ==>
            u.notifications[i] == t.notifications[i].(createdBy := Unlink(t.notifications[i].createdBy, x)))
      && (forall i :: 0 <= i < |t.events| ==>
            u.events[i] == t.events[i].(createdBy := Unlink(t.events[i].createdBy, x)))
      && (forall i :: 0 <= i < |t.activities| ==>
            u.activities[i] == t.activities[i].(instructor := Unlink(t.activities[i].instructor, x)))
      && (forall i :: 0 <= i < |t.payments| ==>
            u.payments[i] == t.payments[i].(recordedBy := Unlink(t.payments[i].recordedBy, x)))
  {
    var u := DeleteStaff(t, x).value;
    FilterIsSubsequence(t.staff, (s: Staff) => s.pk != x);
    forall y ensures y in u.staff <==> y in t.staff && y.pk != x {
      if y in u.staff { FilterOnly(t.staff, (s: Staff) => s.pk != x, y); }
      if y in t.staff && y.pk != x { FilterKeeps(t.staff, (s: Staff) => s.pk != x, y); }
    }
  }

  lemma DeleteStaffConsistent(t: Tables, x: int)
    requires Consistent(t) && DeleteStaff(t, x).Ok?
    ensures Consistent(DeleteStaff(t, x).value)
  {
    DeleteStaffKeys(t, x);
    DeleteStaffRefs(t, x);
    DeleteStaffOnlyUnlinks(t, x);
    var u := DeleteStaff(t, x).value;
    FilterKeepsDistinct(t.staff, (s: Staff) => s.pk != x, StaffIdOf);
    assert UniqueColumns(u);
  }

  lemma DeleteStaffKeys(t: Tables, x: int)
    requires KeysOrdered(t) && DeleteStaff(t, x).Ok?
    ensures KeysOrdered(DeleteStaff(t, x).value)
  {
    var u := DeleteStaff(t, x).value;
    DeleteStaffOnlyUnlinks(t, x);
    FilterKeepsIncreasing(t.staff, (s: Staff) => s.pk != x, StaffKey);
    assert IncreasingBy(u.notifications, NotificationKey);
    assert IncreasingBy(u.events, EventKey);
    assert IncreasingBy(u.activities, ActivityKey);
    assert IncreasingBy(u.payments, PaymentKey);
  }

  lemma UnlinkResolves(t: Tables, u: Tables, r: Option<int>, x: int)
    requires Resolves(r, StaffPks(t))
    requires forall s :: s in u.staff <==> s in t.staff && s.pk != x
    ensures Resolves(Unlink(r, x), StaffPks(u))
  {
    if Unlink(r, x).Some? {
      var s :| s in t.staff && s.pk == r.value;
      assert s in u.staff;
    }
  }

  lemma DeleteStaffRefs(t: Tables, x: int)
    requires StaffRefs(t) && GradeRefs(t) && StudentRefs(t) && DeleteStaff(t, x).Ok?
    ensures var u := DeleteStaff(t, x).value; StaffRefs(u) && GradeRefs(u) && StudentRefs(u)
  {
    var u := DeleteStaff(t, x).value;
    DeleteStaffOnlyUnlinks(t, x);
    forall n | n in u.notifications ensures Resolves(n.createdBy, StaffPks(u)) && Resolves(n.targetGrade, GradePks(u)) {
      var i :| 0 <= i < |u.notifications| && u.notifications[i] == n;
      assert t.notifications[i] in t.notifications;
      UnlinkResolves(t, u, t.notifications[i].createdBy, x);
    }
    forall e | e in u.events ensures Resolves(e.createdBy, StaffPks(u)) && e.targetGrades <= GradePks(u) {
      var i :| 0 <= i < |u.events| && u.events[i] == e;
      assert t.events[i] in t.events;
      UnlinkResolves(t, u, t.events[i].createdBy, x);
    }
    forall a | a in u.activities ensures Resolves(a.instructor, StaffPks(u)) && a.pk in ActivityPks(t) {
      var i :| 0 <= i < |u.activities| && u.activities[i] == a;
      assert t.activities[i] in t.activities;
      UnlinkResolves(t, u, t.activities[i].instructor, x);
    }
    assert ActivityPks(u) == ActivityPks(t) by {
      forall k | k in ActivityPks(t) ensures k in ActivityPks(u) {
        var a :| a in t.activities && a.pk == k;
        var i :| 0 <= i < |t.activities| && t.activities[i] == a;
        assert u.activities[i].pk == k;
      }
    }
    forall p | p in u.payments ensures Resolves(p.recordedBy, StaffPks(u)) && p.student in StudentPks(u) {
      var i :| 0 <= i < |u.payments| && u.payments[i] == p;
      assert t.payments[i] in t.payments;
      UnlinkResolves(t, u, t.payments[i].recordedBy, x);
    }
  }

  lemma DeleteNotificationConsistent(t: Tables, x: int)
    requires Consistent(t) && DeleteNotification(t, x).Ok?
    ensures Consistent(DeleteNotification(t, x).value)
  {
    var u := DeleteNotification(t, x).value;
    FilterKeepsIncreasing(t.notifications, (n: Notification) => n.pk != x, NotificationKey);
    forall n | n in u.notifications ensures n in t.notifications {
      FilterOnly(t.notifications, (m: Notification) => m.pk != x, n);
    }
  }

  lemma DeleteEventConsistent(t: Tables, x: int)
    requires Consistent(t) && DeleteEvent(t, x).Ok?
    ensures Consistent(DeleteEvent(t, x).value)
  {
    var u := DeleteEvent(t, x).value;
    FilterKeepsIncreasing(t.events, (e: Event) => e.pk != x, EventKey);
    forall e | e in u.events ensures e in t.events {
      FilterOnly(t.events, (f: Event) => f.pk != x, e);
    }
  }

  /** Deleting a notification removes exactly the row with that key, keeps
      the order of the others and changes no other table. */
  lemma DeleteNotificationRemovesExactly(t: Tables, x: int)
    requires DeleteNotification(t, x).Ok?
    ensures var u := DeleteNotification(t, x).value;
      && (forall n :: n in u.notifications <==> n in t.notifications && n.pk != x)
      && Subsequence(u.notifications, t.notifications)
      && u.(notifications := t.notifications) == t
  {
    var u := DeleteNotification(t, x).value;
    var keep := (n: Notification) => n.pk != x;
    FilterIsSubsequence(t.notifications, keep);
    forall n ensures n in u.notifications <==> n in t.notifications && n.pk != x {
      if n in u.notifications { FilterOnly(t.notifications, keep, n); }
      if n in t.notifications && n.pk != x { FilterKeeps(t.notifications, keep, n); }
    }
  }

  /** Deleting an event removes exactly the row with that key, keeps the
      order of the others and changes no other table. */
  lemma DeleteEventRemovesExactly(t: Tables, x: int)
    requires DeleteEvent(t, x).Ok?
    ensures var u := DeleteEvent(t, x).value;
      && (forall e :: e in u.events <==> e in t.events && e.pk != x)
      && Subsequence(u.events, t.events)
      && u.(events := t.events) == t
  {
    var u := DeleteEvent(t, x).value;
    var keep := (e: Event) => e.pk != x;
    FilterIsSubsequence(t.events, keep);
    forall e ensures e in u.events <==> e in t.events && e.pk != x {
      if e in u.events { FilterOnly(t.events, keep, e); }
      if e in t.events && e.pk != x { FilterKeeps(t.events, keep, e); }
    }
  }

  /** Editing a student changes that one row: every row keeps its primary
      key and identifier, and the edited row holds the submitted values. */
  lemma EditStudentChangesOneRow(t: Tables, x: int, name: string, grade: int, dob: Option<Date>,
                                 feesDue: int, feesPaid: int)
    requires EditStudent(t, x, name, grade, dob, feesDue, feesPaid).Ok?
    ensures var u := EditStudent(t, x, name, grade, dob, feesDue, feesPaid).value;
      && u.(students := t.students) == t
      && |u.students| == |t.students|
      && (forall i :: 0 <= i < |t.students| ==>
            u.students[i].pk == t.students[i].pk && u.students[i].studentId == t.students[i].studentId
            && u.students[i].enrolledOn == t.students[i].enrolledOn
            && (t.students[i].pk != x ==> u.students[i] == t.students[i])
            && (t.students[i].pk == x ==>
                  u.students[i].name == name && u.students[i].grade == grade && u.students[i].dateOfBirth == dob
                  && u.students[i].feesDue == feesDue && u.students[i].feesPaid == feesPaid))
  {
  }

  /** u differs from t only in student rows rewritten in place, keeping
      their primary keys and identifiers. */
  ghost predicate StudentsRewritten(t: Tables, u: Tables)
  {
    && u.(students := t.students) == t
    && |u.students| == |t.students|
    && (forall i :: 0 <= i < |t.students| ==>
          u.students[i].pk == t.students[i].pk && u.students[i].studentId == t.students[i].studentId)
  }

  lemma StudentsRewrittenPks(t: Tables, u: Tables)
    requires StudentsRewritten(t, u)
    ensures StudentPks(u) == StudentPks(t)
  {
    forall k | k in StudentPks(t) ensures k in StudentPks(u) {
      var s :| s in t.students && s.pk == k;
      var i :| 0 <= i < |t.students| && t.students[i] == s;
      assert u.students[i] in u.students;
    }
  }

  lemma StudentsRewrittenConsistent(t: Tables, u: Tables)
    requires Consistent(t) && StudentsRewritten(t, u)
    requires forall s :: s in u.students ==> s.grade in GradePks(t)
    ensures Consistent(u)
  {
    StudentsRewrittenPks(t, u);
    StudentsRewrittenKeys(t, u);
    StudentsRewrittenUnique(t, u);
    StudentsRewrittenRefs(t, u);
  }

  lemma StudentsRewrittenRefs(t: Tables, u: Tables)
    requires GradeRefs(t) && StaffRefs(t) && StudentRefs(t) && StudentsRewritten(t, u)
    requires StudentPks(u) == StudentPks(t)
    requires forall s :: s in u.students ==> s.grade in GradePks(t)
    ensures GradeRefs(u) && StaffRefs(u) && StudentRefs(u)
  {
    assert GradePks(u) == GradePks(t) && StaffPks(u) == StaffPks(t) && ActivityPks(u) == ActivityPks(t);
  }

  lemma StudentsRewrittenKeys(t: Tables, u: Tables)
    requires KeysOrdered(t) && StudentsRewritten(t, u)
    ensures KeysOrdered(u)
  {
    assert IncreasingBy(u.students, StudentKey);
    forall s | s in u.students ensures s.pk < u.nextPk {
      var i :| 0 <= i < |u.students| && u.students[i] == s;
      assert t.students[i] in t.students;
    }
  }

  lemma StudentsRewrittenUnique(t: Tables, u: Tables)
    requires UniqueColumns(t) && StudentsRewritten(t, u)
    ensures UniqueColumns(u)
  {
    assert DistinctBy(u.students, StudentIdOf);
    forall s | s in u.students ensures s.studentId != [] {
      var i :| 0 <= i < |u.students| && u.students[i] == s;
      assert t.students[i] in t.students;
    }
  }

  lemma EditStudentConsistent(t: Tables, x: int, name: string, grade: int, dob: Option<Date>,
                              feesDue: int, feesPaid: int)
    requires Consistent(t) && EditStudent(t, x, name, grade, dob, feesDue, feesPaid).Ok?
    ensures Consistent(EditStudent(t, x, name, grade, dob, feesDue, feesPaid).value)
  {
    var u := EditStudent(t, x, name, grade, dob, feesDue, feesPaid).value;
    EditStudentChangesOneRow(t, x, name, grade, dob, feesDue, feesPaid);
    forall s | s in u.students ensures s.grade in GradePks(t) {
      var i :| 0 <= i < |u.students| && u.students[i] == s;
      assert t.students[i] in t.students;
    }
    StudentsRewrittenConsistent(t, u);
  }

  lemma UpdateFeesConsistent(t: Tables, x: int, feesDue: Option<int>, feesPaid: Option<int>)
    requires Consistent(t) && UpdateFees(t, x, feesDue, feesPaid).Ok?
    ensures Consistent(UpdateFees(t, x, feesDue, feesPaid).value)
  {
    var u := UpdateFees(t, x, feesDue, feesPaid).value;
    UpdateFeesOnlyFees(t, x, feesDue, feesPaid);
    forall s | s in u.students ensures s.grade in GradePks(t) {
      var i :| 0 <= i < |u.students| && u.students[i] == s;
      assert t.students[i] in t.students;
    }
    StudentsRewrittenConsistent(t, u);
  }

  /** The fee form changes nothing but the two amounts of one student; a
      missing amount keeps its recorded value. */
  lemma UpdateFeesOnlyFees(t: Tables, x: int, feesDue: Option<int>, feesPaid: Option<int>)
    requires UpdateFees(t, x, feesDue, feesPaid).Ok?
    ensures var u := UpdateFees(t, x, feesDue, feesPaid).value;
      && u.(students := t.students) == t
      && |u.students| == |t.students|
      && (forall i :: 0 <= i < |t.students| ==>
            u.students[i].(feesDue := t.students[i].feesDue, feesPaid := t.students[i].feesPaid) == t.students[i]
            && (t.students[i].pk != x ==> u.students[i] == t.students[i])
            && (t.students[i].pk == x ==>
                  (feesDue.Some? ==> u.students[i].feesDue == feesDue.value)
                  && (feesDue.None? ==> u.students[i].feesDue == t.students[i].feesDue)
                  && (feesPaid.Some? ==> u.students[i].feesPaid == feesPaid.value)
                  && (feesPaid.None? ==> u.students[i].feesPaid == t.students[i].feesPaid)))
  {
  }

  lemma EditStaffConsistent(t: Tables, x: int, name: string, role: string, dateJoined: Option<Date>)
    requires Consistent(t) && EditStaff(t, x, name, role, dateJoined).Ok?
    ensures Consistent(EditStaff(t, x, name, role, dateJoined).value)
  {
    var u := EditStaff(t, x, name, role, dateJoined).value;
    assert |u.staff| == |t.staff| && u.(staff := t.staff) == t;
    assert forall i :: 0 <= i < |t.staff| ==> u.staff[i].pk == t.staff[i].pk && u.staff[i].staffId == t.staff[i].staffId;
    StaffRewrittenConsistent(t, u);
  }

  /** u differs from t only in staff rows rewritten in place, keeping their
      primary keys and identifiers. */
  ghost predicate StaffRewritten(t: Tables, u: Tables)
  {
    && u.(staff := t.staff) == t
    && |u.staff| == |t.staff|
    && (forall i :: 0 <= i < |t.staff| ==> u.staff[i].pk == t.staff[i].pk && u.staff[i].staffId == t.staff[i].staffId)
  }

  lemma StaffRewrittenConsistent(t: Tables, u: Tables)
    requires Consistent(t) && StaffRewritten(t, u)
    ensures Consistent(u)
  {
    StaffRewrittenPks(t, u);
    StaffRewrittenKeys(t, u);
    StaffRewrittenUnique(t, u);
    StaffRewrittenRefs(t, u);
  }

  lemma StaffRewrittenPks(t: Tables, u: Tables)
    requires StaffRewritten(t, u)
    ensures StaffPks(u) == StaffPks(t)
  {
    forall k | k in StaffPks(t) ensures k in StaffPks(u) {
      var s :| s in t.staff && s.pk == k;
      var i :| 0 <= i < |t.staff| && t.staff[i] == s;
      assert u.staff[i] in u.staff;
    }
    forall k | k in StaffPks(u) ensures k in StaffPks(t) {
      var s :| s in u.staff && s.pk == k;
      var i :| 0 <= i < |u.staff| && u.staff[i] == s;
      assert t.staff[i] in t.staff;
    }
  }

  lemma StaffRewrittenKeys(t: Tables, u: Tables)
    requires KeysOrdered(t) && StaffRewritten(t, u)
    ensures KeysOrdered(u)
  {
    assert IncreasingBy(u.staff, StaffKey);
    forall s | s in u.staff ensures s.pk < u.nextPk {
      var i :| 0 <= i < |u.staff| && u.staff[i] == s;
      assert t.staff[i] in t.staff;
    }
  }

  lemma StaffRewrittenUnique(t: Tables, u: Tables)
    requires UniqueColumns(t) && StaffRewritten(t, u)
    ensures UniqueColumns(u)
  {
    assert DistinctBy(u.staff, StaffIdOf);
    forall s | s in u.staff ensures s.staffId != [] {
      var i :| 0 <= i < |u.staff| && u.staff[i] == s;
      assert t.staff[i] in t.staff;
    }
  }

  lemma StaffRewrittenRefs(t: Tables, u: Tables)
    requires GradeRefs(t) && StaffRefs(t) && StudentRefs(t) && StaffRewritten(t, u)
    requires StaffPks(u) == StaffPks(t)
    ensures GradeRefs(u) && StaffRefs(u) && StudentRefs(u)
  {
    assert GradePks(u) == GradePks(t) && StudentPks(u) == StudentPks(t) && ActivityPks(u) == ActivityPks(t);
  }

  /** Editing a staff member changes that one row: it takes the submitted
      name and role, and the submitted joining date when one is given; every
      row keeps its primary key and staff identifier, and every other row
      and table is unchanged. */
  lemma EditStaffChangesOneRow(t: Tables, x: int, name: string, role: string, dateJoined: Option<Date>)
    requires EditStaff(t, x, name, role, dateJoined).Ok?
    ensures var u := EditStaff(t, x, name, role, dateJoined).value;
      && u.(staff := t.staff) == t
      && |u.staff| == |t.staff|
      && (forall i :: 0 <= i < |t.staff| ==>
            u.staff[i].pk == t.staff[i].pk && u.staff[i].staffId == t.staff[i].staffId
            && (t.staff[i].pk != x ==> u.staff[i] == t.staff[i])
            && (t.staff[i].pk == x ==>
                  u.staff[i].name == name && u.staff[i].role == role
                  && (dateJoined.Some? ==> u.staff[i].dateJoined == dateJoined)
                  && (dateJoined.None? ==> u.staff[i].dateJoined == t.staff[i].dateJoined)))
  {
  }

  /** A joining date left blank on the form keeps the recorded one. */
  lemma EditStaffKeepsDate(t: Tables, x: int, name: string, role: string, i: int)
    requires EditStaff(t, x, name, role, None).Ok?
    requires 0 <= i < |t.staff|
    ensures var u := EditStaff(t, x, name, role, None).value;
      |u.staff| == |t.staff| && u.staff[i].dateJoined == t.staff[i].dateJoined
      && u.staff[i].staffId == t.staff[i].staffId
  {
  }

  /** Renaming a grade gives that one row the new name; every other grade,
      every other field and every other table stay as they were. */
  lemma EditGradeRenamesOne(t: Tables, x: int, name: string)
    requires EditGrade(t, x, name).Ok?
    ensures var u := EditGrade(t, x, name).value;
      && u.(grades := t.grades) == t && |u.grades| == |t.grades|
      && (forall i :: 0 <= i < |t.grades| ==>
            u.grades[i] == t.grades[i].(name := if t.grades[i].pk == x then name else t.grades[i].name))
  {
  }

  /** Renaming a grade keeps every primary key in its place and touches no
      other table. */
  lemma EditGradeKeepsPks(t: Tables, x: int, name: string)
    requires EditGrade(t, x, name).Ok?
    ensures var u := EditGrade(t, x, name).value;
      && u.(grades := t.grades) == t && |u.grades| == |t.grades|
      && (forall i :: 0 <= i < |t.grades| ==> u.grades[i].pk == t.grades[i].pk)
      && GradePks(u) == GradePks(t)
  {
    var u := EditGrade(t, x, name).value;
    forall k | k in GradePks(t) ensures k in GradePks(u) {
      var g :| g in t.grades && g.pk == k;
      var i :| 0 <= i < |t.grades| && t.grades[i] == g;
      assert u.grades[i] in u.grades;
    }
    forall k | k in GradePks(u) ensures k in GradePks(t) {
      var g :| g in u.grades && g.pk == k;
      var i :| 0 <= i < |u.grades| && u.grades[i] == g;
      assert t.grades[i] in t.grades;
    }
  }

  lemma EditGradeNamesDistinct(t: Tables, x: int, name: string)
    requires DistinctBy(t.grades, GradeName) && IncreasingBy(t.grades, GradeKey) && EditGrade(t, x, name).Ok?
    ensures DistinctBy(EditGrade(t, x, name).value.grades, GradeName)
  {
    var u := EditGrade(t, x, name).value;
    forall i, j | 0 <= i < j < |u.grades| ensures GradeName(u.grades[i]) != GradeName(u.grades[j]) {
      assert t.grades[i] in t.grades && t.grades[j] in t.grades;
      assert GradeKey(t.grades[i]) < GradeKey(t.grades[j]);
    }
  }

  lemma EditGradeConsistent(t: Tables, x: int, name: string)
    requires Consistent(t) && EditGrade(t, x, name).Ok?
    ensures Consistent(EditGrade(t, x, name).value)
  {
    EditGradeKeepsPks(t, x, name);
    EditGradeNamesDistinct(t, x, name);
    GradesRenamedConsistent(t, EditGrade(t, x, name).value);
  }

  /** Grade rows rewritten in place under the same primary keys, with
      names still distinct, keep the tables consistent. */
  lemma GradesRenamedConsistent(t: Tables, u: Tables)
    requires Consistent(t)
    requires u.(grades := t.grades) == t && |u.grades| == |t.grades|
    requires forall i :: 0 <= i < |t.grades| ==> u.grades[i].pk == t.grades[i].pk
    requires GradePks(u) == GradePks(t) && DistinctBy(u.grades, GradeName)
    ensures Consistent(u)
  {
    GradesRenamedKeys(t, u);
    GradesRenamedRefs(t, u);
  }

  lemma GradesRenamedRefs(t: Tables, u: Tables)
    requires GradeRefs(t) && StaffRefs(t) && StudentRefs(t)
    requires u.(grades := t.grades) == t && GradePks(u) == GradePks(t)
    ensures GradeRefs(u) && StaffRefs(u) && StudentRefs(u)
  {
    assert StaffPks(u) == StaffPks(t) && StudentPks(u) == StudentPks(t) && ActivityPks(u) == ActivityPks(t);
  }

  lemma GradesRenamedKeys(t: Tables, u: Tables)
    requires KeysOrdered(t)
    requires u.(grades := t.grades) == t && |u.grades| == |t.grades|
    requires forall i :: 0 <= i < |t.grades| ==> u.grades[i].pk == t.grades[i].pk
    ensures KeysOrdered(u)
  {
    assert IncreasingBy(u.grades, GradeKey);
    forall g | g in u.grades ensures g.pk < u.nextPk {
      var i :| 0 <= i < |u.grades| && u.grades[i] == g;
      assert t.grades[i] in t.grades;
    }
  }

  /** Retitling an event changes the title of that one row and nothing else. */
  lemma EditEventTitleOnlyTitle(t: Tables, x: int, title: string)
    requires EditEventTitle(t, x, title).Ok?
    ensures var u := EditEventTitle(t, x, title).value;
      && u.(events := t.events) == t && |u.events| == |t.events|
      && (forall i :: 0 <= i < |t.events| ==>
            u.events[i] == t.events[i].(title := if t.events[i].pk == x then title else t.events[i].title))
  {
  }

  lemma EditEventTitleConsistent(t: Tables, x: int, title: string)
    requires Consistent(t) && EditEventTitle(t, x, title).Ok?
    ensures Consistent(EditEventTitle(t, x, title).value)
  {
    EditEventTitleOnlyTitle(t, x, title);
    EventsRetitledConsistent(t, EditEventTitle(t, x, title).value);
  }

  /** Event rows whose titles alone change keep the tables consistent. */
  lemma EventsRetitledConsistent(t: Tables, u: Tables)
    requires Consistent(t)
    requires u.(events := t.events) == t && |u.events| == |t.events|
    requires forall i :: 0 <= i < |t.events| ==> u.events[i] == t.events[i].(title := u.events[i].title)
    ensures Consistent(u)
  {
    assert IncreasingBy(u.events, EventKey);
    forall e | e in u.events ensures e.pk < u.nextPk && e.targetGrades <= GradePks(u) && Resolves(e.createdBy, StaffPks(u)) {
      var i :| 0 <= i < |u.events| && u.events[i] == e;
      assert t.events[i] in t.events;
    }
    assert KeysOrdered(u);
  }

  /** Retitling an activity changes the title of that one row and nothing
      else. */
  lemma EditActivityTitleOnlyTitle(t: Tables, x: int, title: string)
    requires EditActivityTitle(t, x, title).Ok?
    ensures var u := EditActivityTitle(t, x, title).value;
      && u.(activities := t.activities) == t && |u.activities| == |t.activities|
      && (forall i :: 0 <= i < |t.activities| ==>
            u.activities[i] == t.activities[i].(title := if t.activities[i].pk == x then title else t.activities[i].title))
      && ActivityPks(u) == ActivityPks(t)
  {
    var u := EditActivityTitle(t, x, title).value;
    forall k | k in ActivityPks(t) ensures k in ActivityPks(u) {
      var a :| a in t.activities && a.pk == k;
      var i :| 0 <= i < |t.activities| && t.activities[i] == a;
      assert u.activities[i] in u.activities;
    }
  }

  lemma EditActivityTitleConsistent(t: Tables, x: int, title: string)
    requires Consistent(t) && EditActivityTitle(t, x, title).Ok?
    ensures Consistent(EditActivityTitle(t, x, title).value)
  {
    EditActivityTitleOnlyTitle(t, x, title);
    ActivitiesRetitledConsistent(t, EditActivityTitle(t, x, title).value);
  }

  /** Activity rows whose titles alone change keep the tables consistent. */
  lemma ActivitiesRetitledConsistent(t: Tables, u: Tables)
    requires Consistent(t)
    requires u.(activities := t.activities) == t && |u.activities| == |t.activities|
    requires forall i :: 0 <= i < |t.activities| ==> u.activities[i] == t.activities[i].(title := u.activities[i].title)
    requires ActivityPks(u) == ActivityPks(t)
    ensures Consistent(u)
  {
    assert IncreasingBy(u.activities, ActivityKey);
    forall a | a in u.activities ensures a.pk < u.nextPk && Resolves(a.instructor, StaffPks(u)) {
      var i :| 0 <= i < |u.activities| && u.activities[i] == a;
      assert t.activities[i] in t.activities;
    }
    assert KeysOrdered(u);
    assert StaffRefs(u);
  }
}
