/** The whole database as one value, the integrity it keeps (ordered
    primary keys, resolved foreign keys, unique columns) and every
    insertion, edit and deletion as a function from the old tables to the
    new ones. Deletion applies the rule declared on each foreign key:
    Grade -> Student, Student -> Payment, Student -> Participant and
    Activity -> Participant cascade; every reference to a Staff member and
    Notification.target_grade are set to null; a deleted grade also leaves
    every event's target set. */
module Schema {
  import opened Common
  import opened Models

  /** The rows of every table in insertion order (ascending primary key),
      and the next primary key to hand out. */
  datatype Tables = Tables(
    grades: seq<Grade>,
    students: seq<Student>,
    staff: seq<Staff>,
    notifications: seq<Notification>,
    events: seq<Event>,
    activities: seq<Activity>,
    participants: seq<Participant>,
    payments: seq<Payment>,
    nextPk: int)

  const Empty: Tables := Tables([], [], [], [], [], [], [], [], 1)

  function GradeKey(x: Grade): int { x.pk }
  function StudentKey(x: Student): int { x.pk }
  function StaffKey(x: Staff): int { x.pk }
  function NotificationKey(x: Notification): int { x.pk }
  function EventKey(x: Event): int { x.pk }
  function ActivityKey(x: Activity): int { x.pk }
  function ParticipantKey(x: Participant): int { x.pk }
  function PaymentKey(x: Payment): int { x.pk }

  function GradeName(x: Grade): string { x.name }
  function StudentIdOf(x: Student): string { x.studentId }
  function StaffIdOf(x: Staff): string { x.staffId }
  function Membership(x: Participant): (int, int) { (x.activity, x.student) }

  function GradePks(t: Tables): set<int> { set x | x in t.grades :: x.pk }
  function StudentPks(t: Tables): set<int> { set x | x in t.students :: x.pk }
  function StaffPks(t: Tables): set<int> { set x | x in t.staff :: x.pk }
  function ActivityPks(t: Tables): set<int> { set x | x in t.activities :: x.pk }

  /** A nullable foreign key that is null or names an existing row. */
  predicate Resolves(r: Option<int>, pks: set<int>) { r.None? || r.value in pks }

  /** Every table is ordered by strictly increasing primary key, below the
      next key to be handed out; so the last row of a table is the one with
      the highest primary key. */
  ghost predicate KeysOrdered(t: Tables)
  {
    && IncreasingBy(t.grades, GradeKey)
    && IncreasingBy(t.students, StudentKey)
    && IncreasingBy(t.staff, StaffKey)
    && IncreasingBy(t.notifications, NotificationKey)
    && IncreasingBy(t.events, EventKey)
    && IncreasingBy(t.activities, ActivityKey)
    && IncreasingBy(t.participants, ParticipantKey)
    && IncreasingBy(t.payments, PaymentKey)
    && (forall x :: x in t.grades ==> x.pk < t.nextPk)
    && (forall x :: x in t.students ==> x.pk < t.nextPk)
    && (forall x :: x in t.staff ==> x.pk < t.nextPk)
    && (forall x :: x in t.notifications ==> x.pk < t.nextPk)
    && (forall x :: x in t.events ==> x.pk < t.nextPk)
    && (forall x :: x in t.activities ==> x.pk < t.nextPk)
    && (forall x :: x in t.participants ==> x.pk < t.nextPk)
    && (forall x :: x in t.payments ==> x.pk < t.nextPk)
  }

  /** References to grades resolve. */
  ghost predicate GradeRefs(t: Tables)
  {
    && (forall s :: s in t.students ==> s.grade in GradePks(t))
    && (forall n :: n in t.notifications ==> Resolves(n.targetGrade, GradePks(t)))
    && (forall e :: e in t.events ==> e.targetGrades <= GradePks(t))
  }

  /** References to staff members resolve. */
  ghost predicate StaffRefs(t: Tables)
  {
    && (forall n :: n in t.notifications ==> Resolves(n.createdBy, StaffPks(t)))
    && (forall e :: e in t.events ==> Resolves(e.createdBy, StaffPks(t)))
    && (forall a :: a in t.activities ==> Resolves(a.instructor, StaffPks(t)))
    && (forall p :: p in t.payments ==> Resolves(p.recordedBy, StaffPks(t)))
  }

  /** References to students and activities resolve. */
  ghost predicate StudentRefs(t: Tables)
  {
    && (forall p :: p in t.participants ==> p.student in StudentPks(t) && p.activity in ActivityPks(t))
    && (forall p :: p in t.payments ==> p.student in StudentPks(t))
  }

  /** The unique columns: Grade.name, Student.student_id, Staff.staff_id
      and the (activity, student) pair; generated identifiers are never
      empty. */
  ghost predicate UniqueColumns(t: Tables)
  {
    && DistinctBy(t.grades, GradeName)
    && DistinctBy(t.students, StudentIdOf)
    && DistinctBy(t.staff, StaffIdOf)
    && DistinctBy(t.participants, Membership)
    && (forall s :: s in t.students ==> s.studentId != [])
    && (forall s :: s in t.staff ==> s.staffId != [])
  }

  ghost predicate Consistent(t: Tables)
  {
    KeysOrdered(t) && GradeRefs(t) && StaffRefs(t) && StudentRefs(t) && UniqueColumns(t)
  }

  lemma EmptyConsistent()
    ensures Consistent(Empty)
  {
  }

  /** The row the identifier assigner reads (`order_by('-id').first()`) is
      the last one: no other row has a higher primary key. */
  lemma {:induction false} LastStudentHasHighestPk(t: Tables)
    requires KeysOrdered(t) && t.students != []
    ensures forall s :: s in t.students ==> s.pk <= t.students[|t.students| - 1].pk
  {
    forall s | s in t.students ensures s.pk <= t.students[|t.students| - 1].pk {
      var i :| 0 <= i < |t.students| && t.students[i] == s;
      if i < |t.students| - 1 {
        assert StudentKey(t.students[i]) < StudentKey(t.students[|t.students| - 1]);
      }
    }
  }

  // ================================================================ identifiers

  function LastStudentId(t: Tables): Option<string>
  {
    if t.students == [] then None else Some(t.students[|t.students| - 1].studentId)
  }

  function LastStaffId(t: Tables): Option<string>
  {
    if t.staff == [] then None else Some(t.staff[|t.staff| - 1].staffId)
  }

  predicate HasStudentId(t: Tables, id: string) { exists s :: s in t.students && s.studentId == id }
  predicate HasStaffId(t: Tables, id: string) { exists s :: s in t.staff && s.staffId == id }

  // ================================================================ insertions

  function AddGrade(t: Tables, name: string, capacity: nat): (r: Result<Tables>)
    ensures r.Err? <==> exists g :: g in t.grades && g.name == name
    ensures r.Err? ==> r.error == DuplicateGradeName
  {
    if exists g :: g in t.grades && g.name == name then Err(DuplicateGradeName)
    else Ok(t.(grades := t.grades + [Grade(t.nextPk, name, capacity)], nextPk := t.nextPk + 1))
  }

  /** `Student.objects.create(...)` after the grade lookup of the view:
      the grade must exist, the identifier is assigned from the last
      student's, and the unique identifier column must accept it. */
  function AddStudent(t: Tables, name: string, supplied: string, grade: int, dob: Option<Date>,
                      feesDue: int, feesPaid: int, enrolledOn: Date): (r: Result<Tables>)
  {
    if grade !in GradePks(t) then Err(NotFound)
    else
      match AssignId(StudentPrefix, supplied, LastStudentId(t))
      case Err(e) => Err(e)
      case Ok(id) =>
        if HasStudentId(t, id) then Err(DuplicateStudentId)
        else
          var s := Student(t.nextPk, name, id, grade, dob, feesDue, feesPaid, enrolledOn);
          Ok(t.(students := t.students + [s], nextPk := t.nextPk + 1))
  }

  function AddStaff(t: Tables, name: string, supplied: string, role: string, dateJoined: Option<Date>): (r: Result<Tables>)
  {
    match AssignId(StaffPrefix, supplied, LastStaffId(t))
    case Err(e) => Err(e)
    case Ok(id) =>
      if HasStaffId(t, id) then Err(DuplicateStaffId)
      else Ok(t.(staff := t.staff + [Staff(t.nextPk, name, id, role, dateJoined)], nextPk := t.nextPk + 1))
  }

  function AddNotification(t: Tables, message: string, date: Date, targetGrade: Option<int>,
                           createdBy: Option<int>): (r: Result<Tables>)
    ensures r.Ok? <==> Resolves(targetGrade, GradePks(t)) && Resolves(createdBy, StaffPks(t))
  {
    if !Resolves(targetGrade, GradePks(t)) || !Resolves(createdBy, StaffPks(t)) then Err(NotFound)
    else
      var n := Notification(t.nextPk, message, date, targetGrade, createdBy);
      Ok(t.(notifications := t.notifications + [n], nextPk := t.nextPk + 1))
  }

  function AddEvent(t: Tables, title: string, targetGrades: set<int>, createdBy: Option<int>): (r: Result<Tables>)
    ensures r.Ok? <==> targetGrades <= GradePks(t) && Resolves(createdBy, StaffPks(t))
  {
    if !(targetGrades <= GradePks(t)) || !Resolves(createdBy, StaffPks(t)) then Err(NotFound)
    else Ok(t.(events := t.events + [Event(t.nextPk, title, targetGrades, createdBy)], nextPk := t.nextPk + 1))
  }

  function AddActivity(t: Tables, title: string, instructor: Option<int>, maxParticipants: nat): (r: Result<Tables>)
    ensures r.Ok? <==> Resolves(instructor, StaffPks(t))
  {
    if !Resolves(instructor, StaffPks(t)) then Err(NotFound)
    else
      var a := Activity(t.nextPk, title, instructor, maxParticipants, true);
      Ok(t.(activities := t.activities + [a], nextPk := t.nextPk + 1))
  }

  function AddParticipant(t: Tables, activity: int, student: int): (r: Result<Tables>)
    ensures r.Err? <==>
      activity !in ActivityPks(t) || student !in StudentPks(t)
      || exists p :: p in t.participants && p.activity == activity && p.student == student
  {
    if activity !in ActivityPks(t) || student !in StudentPks(t) then Err(NotFound)
    else if exists p :: p in t.participants && p.activity == activity && p.student == student then
      Err(DuplicateParticipant)
    else
      var p := Participant(t.nextPk, activity, student, true);
      Ok(t.(participants := t.participants + [p], nextPk := t.nextPk + 1))
  }

  function AddPayment(t: Tables, student: int, amount: int, recordedBy: Option<int>): (r: Result<Tables>)
    ensures r.Ok? <==> student in StudentPks(t) && Resolves(recordedBy, StaffPks(t))
  {
    if student !in StudentPks(t) || !Resolves(recordedBy, StaffPks(t)) then Err(NotFound)
    else Ok(t.(payments := t.payments + [Payment(t.nextPk, student, amount, recordedBy)], nextPk := t.nextPk + 1))
  }

  // ================================================================ deletions

  /** Primary keys of the students enrolled in grade g. */
  function StudentsOfGrade(t: Tables, g: int): set<int>
  {
    set s | s in t.students && s.grade == g :: s.pk
  }

  function ClearTargetGrade(ns: seq<Notification>, g: int): (r: seq<Notification>)
    ensures |r| == |ns|
    ensures forall i :: 0 <= i < |ns| ==>
      r[i] == if ns[i].targetGrade == Some(g) then ns[i].(targetGrade := None) else ns[i]
  {
    seq(|ns|, i requires 0 <= i < |ns| =>
      if ns[i].targetGrade == Some(g) then ns[i].(targetGrade := None) else ns[i])
  }

  function DropTargetGrade(es: seq<Event>, g: int): (r: seq<Event>)
    ensures |r| == |es|
    ensures forall i :: 0 <= i < |es| ==> r[i] == es[i].(targetGrades := es[i].targetGrades - {g})
  {
    seq(|es|, i requires 0 <= i < |es| => es[i].(targetGrades := es[i].targetGrades - {g}))
  }

  /** Deleting a grade deletes its students, and with them their payments
      and participant rows; notifications aimed at it lose their target and
      events stop listing it. */
  function DeleteGrade(t: Tables, g: int): (r: Result<Tables>)
    ensures r.Err? <==> g !in GradePks(t)
  {
    if g !in GradePks(t) then Err(NotFound)
    else
      var gone := StudentsOfGrade(t, g);
      Ok(t.(grades := Filter(t.grades, (x: Grade) => x.pk != g),
            students := Filter(t.students, (s: Student) => s.grade != g),
            participants := Filter(t.participants, (p: Participant) => p.student !in gone),
            payments := Filter(t.payments, (p: Payment) => p.student !in gone),
            notifications := ClearTargetGrade(t.notifications, g),
            events := DropTargetGrade(t.events, g)))
  }

  /** Deleting a student deletes its payments and participant rows. */
  function DeleteStudent(t: Tables, x: int): (r: Result<Tables>)
    ensures r.Err? <==> x !in StudentPks(t)
  {
    if x !in StudentPks(t) then Err(NotFound)
    else
      Ok(t.(students := Filter(t.students, (s: Student) => s.pk != x),
            participants := Filter(t.participants, (p: Participant) => p.student != x),
            payments := Filter(t.payments, (p: Payment) => p.student != x)))
  }

  /** Deleting an activity deletes its participant rows. */
  function DeleteActivity(t: Tables, x: int): (r: Result<Tables>)
    ensures r.Err? <==> x !in ActivityPks(t)
  {
    if x !in ActivityPks(t) then Err(NotFound)
    else
      Ok(t.(activities := Filter(t.activities, (a: Activity) => a.pk != x),
            participants := Filter(t.participants, (p: Participant) => p.activity != x)))
  }

  /** A nullable reference with every reference to x set to null. */
  function Unlink(r: Option<int>, x: int): Option<int>
  {
    if r == Some(x) then None else r
  }

  /** Deleting a staff member deletes nothing else: notifications, events,
      activities and payments keep existing and only lose the reference. */
  function DeleteStaff(t: Tables, x: int): (r: Result<Tables>)
    ensures r.Err? <==> x !in StaffPks(t)
  {
    if x !in StaffPks(t) then Err(NotFound)
    else
      var ns := t.notifications;
      var es := t.events;
      var as_ := t.activities;
      var ps := t.payments;
      Ok(t.(staff := Filter(t.staff, (s: Staff) => s.pk != x),
            notifications := seq(|ns|, i requires 0 <= i < |ns| => ns[i].(createdBy := Unlink(ns[i].createdBy, x))),
            events := seq(|es|, i requires 0 <= i < |es| => es[i].(createdBy := Unlink(es[i].createdBy, x))),
            activities := seq(|as_|, i requires 0 <= i < |as_| => as_[i].(instructor := Unlink(as_[i].instructor, x))),
            payments := seq(|ps|, i requires 0 <= i < |ps| => ps[i].(recordedBy := Unlink(ps[i].recordedBy, x)))))
  }

  function DeleteNotification(t: Tables, x: int): (r: Result<Tables>)
    ensures r.Err? <==> !exists n :: n in t.notifications && n.pk == x
  {
    if !exists n :: n in t.notifications && n.pk == x then Err(NotFound)
    else Ok(t.(notifications := Filter(t.notifications, (n: Notification) => n.pk != x)))
  }

  function DeleteEvent(t: Tables, x: int): (r: Result<Tables>)
    ensures r.Err? <==> !exists e :: e in t.events && e.pk == x
  {
    if !exists e :: e in t.events && e.pk == x then Err(NotFound)
    else Ok(t.(events := Filter(t.events, (e: Event) => e.pk != x)))
  }

  // ================================================================ edits

  /** The edit form of a student: name, grade, date of birth and both fee
      amounts are replaced; the identifier is already set, so saving keeps it. */
  function EditStudent(t: Tables, x: int, name: string, grade: int, dob: Option<Date>,
                       feesDue: int, feesPaid: int): (r: Result<Tables>)
    ensures r.Err? <==> x !in StudentPks(t) || grade !in GradePks(t)
  {
    if x !in StudentPks(t) || grade !in GradePks(t) then Err(NotFound)
    else
      var ss := t.students;
      Ok(t.(students := seq(|ss|, i requires 0 <= i < |ss| =>
        if ss[i].pk == x
        then ss[i].(name := name, grade := grade, dateOfBirth := dob, feesDue := feesDue, feesPaid := feesPaid)
        else ss[i])))
  }

  /** The fee form: only the two fee amounts change, and an amount left
      out of the form keeps its recorded value. */
  function UpdateFees(t: Tables, x: int, feesDue: Option<int>, feesPaid: Option<int>): (r: Result<Tables>)
    ensures r.Err? <==> x !in StudentPks(t)
  {
    if x !in StudentPks(t) then Err(NotFound)
    else
      var ss := t.students;
      Ok(t.(students := seq(|ss|, i requires 0 <= i < |ss| =>
        if ss[i].pk == x
        then ss[i].(feesDue := if feesDue.Some? then feesDue.value else ss[i].feesDue,
                    feesPaid := if feesPaid.Some? then feesPaid.value else ss[i].feesPaid)
        else ss[i])))
  }

  /** The edit form of a staff member; an absent joining date keeps the old one. */
  function EditStaff(t: Tables, x: int, name: string, role: string, dateJoined: Option<Date>): (r: Result<Tables>)
    ensures r.Err? <==> x !in StaffPks(t)
  {
    if x !in StaffPks(t) then Err(NotFound)
    else
      var ss := t.staff;
      Ok(t.(staff := seq(|ss|, i requires 0 <= i < |ss| =>
        if ss[i].pk == x
        then ss[i].(name := name, role := role, dateJoined := if dateJoined.Some? then dateJoined else ss[i].dateJoined)
        else ss[i])))
  }

  /** Renaming a grade fails when another grade already has the name. */
  function EditGrade(t: Tables, x: int, name: string): (r: Result<Tables>)
    ensures r.Err? <==> x !in GradePks(t) || exists g :: g in t.grades && g.pk != x && g.name == name
  {
    if x !in GradePks(t) then Err(NotFound)
    else if exists g :: g in t.grades && g.pk != x && g.name == name then Err(DuplicateGradeName)
    else
      var gs := t.grades;
      Ok(t.(grades := seq(|gs|, i requires 0 <= i < |gs| => if gs[i].pk == x then gs[i].(name := name) else gs[i])))
  }

  /** The edit form of an event changes its title only. */
  function EditEventTitle(t: Tables, x: int, title: string): (r: Result<Tables>)
    ensures r.Err? <==> !exists e :: e in t.events && e.pk == x
  {
    if !exists e :: e in t.events && e.pk == x then Err(NotFound)
    else
      var es := t.events;
      Ok(t.(events := seq(|es|, i requires 0 <= i < |es| => if es[i].pk == x then es[i].(title := title) else es[i])))
  }

  /** The edit form of an activity changes its title only. */
  function EditActivityTitle(t: Tables, x: int, title: string): (r: Result<Tables>)
    ensures r.Err? <==> x !in ActivityPks(t)
  {
    if x !in ActivityPks(t) then Err(NotFound)
    else
      var as_ := t.activities;
      Ok(t.(activities := seq(|as_|, i requires 0 <= i < |as_| => if as_[i].pk == x then as_[i].(title := title) else as_[i])))
  }
}
