/** The database as an object: one sequence of rows per table, updated in
    place by the insertions (with `Student.save` / `Staff.save` assigning
    identifiers), the deletions (with their cascade and set-null rules) and
    the edit forms. Every method is specified by the Schema function on
    tables that it carries out (InsertStudent by AddStudent, RemoveGrade by
    DeleteGrade, SaveFees by UpdateFees, and so on), and keeps the store
    consistent. A failed operation
    leaves every table as it was, as the surrounding transaction does. */
module Store {
  import opened Common
  import opened Text
  import opened Models
  import opened Schema
  import opened Integrity

  /** The identifier step of `Student.save` / `Staff.save`: a supplied
      identifier is kept; otherwise the suffix after the last hyphen of the
      last row's identifier is read as an integer (0 when there is no
      hyphen) and the next number is written after the prefix, padded to
      four digits. An unreadable suffix is the ValueError of int(). */
  method GenerateId(prefix: string, supplied: string, last: Option<string>) returns (r: Result<string>)
    ensures r == AssignId(prefix, supplied, last)
  {
    if supplied != [] {
      return Ok(supplied);
    }
    if last.None? {
      return Ok(prefix + "-0001");
    }
    var lastId := 0;
    if '-' in last.value {
      var parsed := ParseInt(AfterLast(last.value, '-'));
      if parsed.None? {
        return Err(MalformedIdSuffix);
      }
      lastId := parsed.value;
    }
    return Ok(FormatId(prefix, lastId + 1));
  }

  class SchoolStore {
    var grades: seq<Grade>
    var students: seq<Student>
    var staff: seq<Staff>
    var notifications: seq<Notification>
    var events: seq<Event>
    var activities: seq<Activity>
    var participants: seq<Participant>
    var payments: seq<Payment>
    var nextPk: int

    /** The tables as a value. */
    function Snapshot(): Tables
      reads this
    {
      Tables(grades, students, staff, notifications, events, activities, participants, payments, nextPk)
    }

    ghost predicate Valid()
      reads this
    {
      Consistent(Snapshot())
    }

    /** A freshly migrated, empty database. */
    constructor ()
      ensures Snapshot() == Empty && Valid()
    {
      grades, students, staff := [], [], [];
      notifications, events, activities := [], [], [];
      participants, payments := [], [];
      nextPk := 1;
      EmptyConsistent();
    }

    /** Replaces every table by the ones in u, which must be consistent. */
    method Load(u: Tables)
      requires Consistent(u)
      modifies this
      ensures Snapshot() == u && Valid()
    {
      grades, students, staff := u.grades, u.students, u.staff;
      notifications, events, activities := u.notifications, u.events, u.activities;
      participants, payments := u.participants, u.payments;
      nextPk := u.nextPk;
    }

    /** Applies the outcome of an operation: its new tables, or its error
        with nothing changed. */
    method Commit(o: Result<Tables>) returns (err: Option<Error>)
      requires Valid() && (o.Ok? ==> Consistent(o.value))
      modifies this
      ensures Valid()
      ensures o.Ok? ==> Snapshot() == o.value && err == None
      ensures o.Err? ==> Snapshot() == old(Snapshot()) && err == Some(o.error)
    {
      if o.Err? {
        return Some(o.error);
      }
      Load(o.value);
      return None;
    }

    // ------------------------------------------------------------ insertions

    /** `Student.objects.create(...)`: `Student.save` gives an empty
        identifier the number after the last hyphen of the most recently
        inserted student's identifier plus one (STU-0001 for the first
        student, and when that identifier has no hyphen the count restarts
        at 1), then the row is stored under the next primary key. */
    method InsertStudent(name: string, supplied: string, grade: int, dob: Option<Date>,
                         feesDue: int, feesPaid: int, enrolledOn: Date) returns (r: Result<Student>)
      requires Valid()
      modifies this
      ensures Valid()
      ensures var o := AddStudent(old(Snapshot()), name, supplied, grade, dob, feesDue, feesPaid, enrolledOn);
        && (o.Ok? ==>
              && Snapshot() == o.value
              && r == Ok(Student(old(nextPk), name, AssignId(StudentPrefix, supplied, LastStudentId(old(Snapshot()))).value,
                                 grade, dob, feesDue, feesPaid, enrolledOn))
              && students == old(students) + [r.value])
        && (o.Err? ==> Snapshot() == old(Snapshot()) && r == Err(o.error))
    {
      AddStudentOutcome(Snapshot(), name, supplied, grade, dob, feesDue, feesPaid, enrolledOn);
      if grade !in GradePks(Snapshot()) {
        return Err(NotFound);
      }
      var given := GenerateId(StudentPrefix, supplied, LastStudentId(Snapshot()));
      if given.Err? {
        return Err(given.error);
      }
      var id := given.value;
      if HasStudentId(Snapshot(), id) {
        return Err(DuplicateStudentId);
      }
      ghost var u := AddStudent(Snapshot(), name, supplied, grade, dob, feesDue, feesPaid, enrolledOn).value;
      AddStudentConsistent(Snapshot(), name, supplied, grade, dob, feesDue, feesPaid, enrolledOn);
      var s := Student(nextPk, name, id, grade, dob, feesDue, feesPaid, enrolledOn);
      students := students + [s];
      nextPk := nextPk + 1;
      assert Snapshot() == u;
      return Ok(s);
    }

    /** `Staff.objects.create(...)`, with `Staff.save` assigning STF-nnnn
        identifiers by the same rule as students. */
    method InsertStaff(name: string, supplied: string, role: string, dateJoined: Option<Date>)
      returns (r: Result<Staff>)
      requires Valid()
      modifies this
      ensures Valid()
      ensures var o := AddStaff(old(Snapshot()), name, supplied, role, dateJoined);
        && (o.Ok? ==>
              && Snapshot() == o.value
              && r == Ok(Staff(old(nextPk), name, AssignId(StaffPrefix, supplied, LastStaffId(old(Snapshot()))).value,
                               role, dateJoined))
              && staff == old(staff) + [r.value])
        && (o.Err? ==> Snapshot() == old(Snapshot()) && r == Err(o.error))
    {
      AddStaffOutcome(Snapshot(), name, supplied, role, dateJoined);
      var given := GenerateId(StaffPrefix, supplied, LastStaffId(Snapshot()));
      if given.Err? {
        return Err(given.error);
      }
      var id := given.value;
      if HasStaffId(Snapshot(), id) {
        return Err(DuplicateStaffId);
      }
      ghost var u := AddStaff(Snapshot(), name, supplied, role, dateJoined).value;
      AddStaffConsistent(Snapshot(), name, supplied, role, dateJoined);
      var s := Staff(nextPk, name, id, role, dateJoined);
      staff := staff + [s];
      nextPk := nextPk + 1;
      assert Snapshot() == u;
      return Ok(s);
    }

    /** `Grade.objects.create(...)`; the name column is unique. */
    method InsertGrade(name: string, capacity: nat) returns (err: Option<Error>)
      requires Valid()
      modifies this
      ensures Valid()
      ensures var o := AddGrade(old(Snapshot()), name, capacity);
        if o.Ok? then Snapshot() == o.value && err == None
        else Snapshot() == old(Snapshot()) && err == Some(o.error)
    {
      if exists g :: g in grades && g.name == name {
        return Some(DuplicateGradeName);
      }
      ghost var u := AddGrade(Snapshot(), name, capacity).value;
      AddGradeAppends(Snapshot(), name, capacity);
      AddGradeConsistent(Snapshot(), name, capacity);
      grades := grades + [Grade(nextPk, name, capacity)];
      nextPk := nextPk + 1;
      assert Snapshot() == u;
      return None;
    }

    method InsertNotification(message: string, date: Date, targetGrade: Option<int>, createdBy: Option<int>)
      returns (err: Option<Error>)
      requires Valid()
      modifies this
      ensures Valid()
      ensures var o := AddNotification(old(Snapshot()), message, date, targetGrade, createdBy);
        if o.Ok? then Snapshot() == o.value && err == None
        else Snapshot() == old(Snapshot()) && err == Some(o.error)
    {
      var o := AddNotification(Snapshot(), message, date, targetGrade, createdBy);
      if o.Ok? {
        AddNotificationConsistent(Snapshot(), message, date, targetGrade, createdBy);
      }
      err := Commit(o);
    }

    method InsertEvent(title: string, targetGrades: set<int>, createdBy: Option<int>) returns (err: Option<Error>)
      requires Valid()
      modifies this
      ensures Valid()
      ensures var o := AddEvent(old(Snapshot()), title, targetGrades, createdBy);
        if o.Ok? then Snapshot() == o.value && err == None
        else Snapshot() == old(Snapshot()) && err == Some(o.error)
    {
      var o := AddEvent(Snapshot(), title, targetGrades, createdBy);
      if o.Ok? {
        AddEventConsistent(Snapshot(), title, targetGrades, createdBy);
      }
      err := Commit(o);
    }

    method InsertActivity(title: string, instructor: Option<int>, maxParticipants: nat) returns (err: Option<Error>)
      requires Valid()
      modifies this
      ensures Valid()
      ensures var o := AddActivity(old(Snapshot()), title, instructor, maxParticipants);
        if o.Ok? then Snapshot() == o.value && err == None
        else Snapshot() == old(Snapshot()) && err == Some(o.error)
    {
      var o := AddActivity(Snapshot(), title, instructor, maxParticipants);
      if o.Ok? {
        AddActivityConsistent(Snapshot(), title, instructor, maxParticipants);
      }
      err := Commit(o);
    }

    /** Enrols a student in an activity; the (activity, student) pair is unique. */
    method InsertParticipant(activity: int, student: int) returns (err: Option<Error>)
      requires Valid()
      modifies this
      ensures Valid()
      ensures var o := AddParticipant(old(Snapshot()), activity, student);
        if o.Ok? then Snapshot() == o.value && err == None
        else Snapshot() == old(Snapshot()) && err == Some(o.error)
    {
      var o := AddParticipant(Snapshot(), activity, student);
      if o.Ok? {
        AddParticipantConsistent(Snapshot(), activity, student);
      }
      err := Commit(o);
    }

    method InsertPayment(student: int, amount: int, recordedBy: Option<int>) returns (err: Option<Error>)
      requires Valid()
      modifies this
      ensures Valid()
      ensures var o := AddPayment(old(Snapshot()), student, amount, recordedBy);
        if o.Ok? then Snapshot() == o.value && err == None
        else Snapshot() == old(Snapshot()) && err == Some(o.error)
    {
      var o := AddPayment(Snapshot(), student, amount, recordedBy);
      if o.Ok? {
        AddPaymentConsistent(Snapshot(), student, amount, recordedBy);
      }
      err := Commit(o);
    }

    // ------------------------------------------------------------ deletions

    /** `grade.delete()`: cascades to the grade's students and their rows,
        clears notification targets and event target sets. */
    method RemoveGrade(g: int) returns (err: Option<Error>)
      requires Valid()
      modifies this
      ensures Valid()
      ensures var o := DeleteGrade(old(Snapshot()), g);
        if o.Ok? then Snapshot() == o.value && err == None
        else Snapshot() == old(Snapshot()) && err == Some(o.error)
    {
      var o := DeleteGrade(Snapshot(), g);
      if o.Ok? {
        DeleteGradeConsistent(Snapshot(), g);
      }
      err := Commit(o);
    }

    /** `student.delete()`: cascades to the student's payments and
        participant rows. */
    method RemoveStudent(x: int) returns (err: Option<Error>)
      requires Valid()
      modifies this
      ensures Valid()
      ensures var o := DeleteStudent(old(Snapshot()), x);
        if o.Ok? then Snapshot() == o.value && err == None
        else Snapshot() == old(Snapshot()) && err == Some(o.error)
    {
      var o := DeleteStudent(Snapshot(), x);
      if o.Ok? {
        DeleteStudentConsistent(Snapshot(), x);
      }
      err := Commit(o);
    }

    /** `staff_member.delete()`: every reference to the member becomes null. */
    method RemoveStaff(x: int) returns (err: Option<Error>)
      requires Valid()
      modifies this
      ensures Valid()
      ensures var o := DeleteStaff(old(Snapshot()), x);
        if o.Ok? then Snapshot() == o.value && err == None
        else Snapshot() == old(Snapshot()) && err == Some(o.error)
    {
      var o := DeleteStaff(Snapshot(), x);
      if o.Ok? {
        DeleteStaffConsistent(Snapshot(), x);
      }
      err := Commit(o);
    }

    /** `activity.delete()`: cascades to its participant rows. */
    method RemoveActivity(x: int) returns (err: Option<Error>)
      requires Valid()
      modifies this
      ensures Valid()
      ensures var o := DeleteActivity(old(Snapshot()), x);
        if o.Ok? then Snapshot() == o.value && err == None
        else Snapshot() == old(Snapshot()) && err == Some(o.error)
    {
      var o := DeleteActivity(Snapshot(), x);
      if o.Ok? {
        DeleteActivityConsistent(Snapshot(), x);
      }
      err := Commit(o);
    }

    method RemoveNotification(x: int) returns (err: Option<Error>)
      requires Valid()
      modifies this
      ensures Valid()
      ensures var o := DeleteNotification(old(Snapshot()), x);
        if o.Ok? then Snapshot() == o.value && err == None
        else Snapshot() == old(Snapshot()) && err == Some(o.error)
    {
      var o := DeleteNotification(Snapshot(), x);
      if o.Ok? {
        DeleteNotificationConsistent(Snapshot(), x);
      }
      err := Commit(o);
    }

    method RemoveEvent(x: int) returns (err: Option<Error>)
      requires Valid()
      modifies this
      ensures Valid()
      ensures var o := DeleteEvent(old(Snapshot()), x);
        if o.Ok? then Snapshot() == o.value && err == None
        else Snapshot() == old(Snapshot()) && err == Some(o.error)
    {
      var o := DeleteEvent(Snapshot(), x);
      if o.Ok? {
        DeleteEventConsistent(Snapshot(), x);
      }
      err := Commit(o);
    }

    // ------------------------------------------------------------ edits

    /** The student edit form: the fields are given and the row saved;
        the identifier is already set, so saving keeps it. */
    method SaveStudent(x: int, name: string, grade: int, dob: Option<Date>, feesDue: int, feesPaid: int)
      returns (err: Option<Error>)
      requires Valid()
      modifies this
      ensures Valid()
      ensures var o := EditStudent(old(Snapshot()), x, name, grade, dob, feesDue, feesPaid);
        if o.Ok? then Snapshot() == o.value && err == None
        else Snapshot() == old(Snapshot()) && err == Some(o.error)
    {
      var o := EditStudent(Snapshot(), x, name, grade, dob, feesDue, feesPaid);
      if o.Ok? {
        EditStudentConsistent(Snapshot(), x, name, grade, dob, feesDue, feesPaid);
      }
      err := Commit(o);
    }

    /** The fee form; an amount missing from the form keeps its value. */
    method SaveFees(x: int, feesDue: Option<int>, feesPaid: Option<int>) returns (err: Option<Error>)
      requires Valid()
      modifies this
      ensures Valid()
      ensures var o := UpdateFees(old(Snapshot()), x, feesDue, feesPaid);
        if o.Ok? then Snapshot() == o.value && err == None
        else Snapshot() == old(Snapshot()) && err == Some(o.error)
    {
      var o := UpdateFees(Snapshot(), x, feesDue, feesPaid);
      if o.Ok? {
        UpdateFeesConsistent(Snapshot(), x, feesDue, feesPaid);
      }
      err := Commit(o);
    }

    method SaveStaff(x: int, name: string, role: string, dateJoined: Option<Date>) returns (err: Option<Error>)
      requires Valid()
      modifies this
      ensures Valid()
      ensures var o := EditStaff(old(Snapshot()), x, name, role, dateJoined);
        if o.Ok? then Snapshot() == o.value && err == None
        else Snapshot() == old(Snapshot()) && err == Some(o.error)
    {
      var o := EditStaff(Snapshot(), x, name, role, dateJoined);
      if o.Ok? {
        EditStaffConsistent(Snapshot(), x, name, role, dateJoined);
      }
      err := Commit(o);
    }

    method SaveGrade(x: int, name: string) returns (err: Option<Error>)
      requires Valid()
      modifies this
      ensures Valid()
      ensures var o := EditGrade(old(Snapshot()), x, name);
        if o.Ok? then Snapshot() == o.value && err == None
        else Snapshot() == old(Snapshot()) && err == Some(o.error)
    {
      var o := EditGrade(Snapshot(), x, name);
      if o.Ok? {
        EditGradeConsistent(Snapshot(), x, name);
      }
      err := Commit(o);
    }

    method SaveEventTitle(x: int, title: string) returns (err: Option<Error>)
      requires Valid()
      modifies this
      ensures Valid()
      ensures var o := EditEventTitle(old(Snapshot()), x, title);
        if o.Ok? then Snapshot() == o.value && err == None
        else Snapshot() == old(Snapshot()) && err == Some(o.error)
    {
      var o := EditEventTitle(Snapshot(), x, title);
      if o.Ok? {
        EditEventTitleConsistent(Snapshot(), x, title);
      }
      err := Commit(o);
    }

    method SaveActivityTitle(x: int, title: string) returns (err: Option<Error>)
      requires Valid()
      modifies this
      ensures Valid()
      ensures var o := EditActivityTitle(old(Snapshot()), x, title);
        if o.Ok? then Snapshot() == o.value && err == None
        else Snapshot() == old(Snapshot()) && err == Some(o.error)
    {
      var o := EditActivityTitle(Snapshot(), x, title);
      if o.Ok? {
        EditActivityTitleConsistent(Snapshot(), x, title);
      }
      err := Commit(o);
    }
  }
}
