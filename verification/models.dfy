/** The records of the school database and the rules computed from a single
    record: a student's balance, payment status and age, the free places of
    a grade or an activity, and the sequential identifiers given to new
    students and staff members. Money is held in integer cents. */
module Models {
  import opened Common
  import opened Text

  /** A calendar date; dates compare as (year, month, day) triples. */
  datatype Date = Date(year: int, month: int, day: int)

  /** a is strictly earlier than b. */
  predicate Before(a: Date, b: Date)
  {
    a.year < b.year
    || (a.year == b.year && (a.month < b.month || (a.month == b.month && a.day < b.day)))
  }

  datatype Grade = Grade(pk: int, name: string, capacity: nat)

  datatype Student = Student(
    pk: int,
    name: string,
    studentId: string,
    grade: int,                  // primary key of the student's Grade
    dateOfBirth: Option<Date>,
    feesDue: int,                // cents
    feesPaid: int,               // cents
    enrolledOn: Date)

  datatype Staff = Staff(pk: int, name: string, staffId: string, role: string, dateJoined: Option<Date>)

  datatype Notification = Notification(
    pk: int,
    message: string,
    date: Date,
    targetGrade: Option<int>,    // a Grade, cleared when that grade is deleted
    createdBy: Option<int>)      // a Staff member, cleared when deleted

  datatype Event = Event(
    pk: int,
    title: string,
    targetGrades: set<int>,      // Grades; empty means every grade
    createdBy: Option<int>)

  datatype Activity = Activity(
    pk: int,
    title: string,
    instructor: Option<int>,     // a Staff member, cleared when deleted
    maxParticipants: nat,
    isActive: bool)

  /** A student's membership of an activity. */
  datatype Participant = Participant(pk: int, activity: int, student: int, isActive: bool)

  datatype Payment = Payment(
    pk: int,
    student: int,
    amount: int,                 // cents
    recordedBy: Option<int>)     // a Staff member, cleared when deleted

  // ---------------------------------------------------------------- fees

  /** Above this balance (100.00, in cents) an unpaid balance is overdue. */
  const OverdueThreshold: int := 10000

  /** What a student still owes; negative when the student has overpaid. */
  function Balance(s: Student): int
  {
    s.feesDue - s.feesPaid
  }

  /** The balance is not clamped at zero: a student who paid more than was
      due has a negative balance, of exactly the amount overpaid, and is
      'paid'. */
  lemma OverpaidBalance(s: Student)
    requires s.feesPaid > s.feesDue
    ensures Balance(s) < 0 && -Balance(s) == s.feesPaid - s.feesDue
    ensures PaymentStatusOf(s) == Paid
  {
  }

  /** The labels 'paid', 'outstanding' and 'overdue'. */
  datatype PaymentStatus = Paid | Outstanding | Overdue

  function PaymentStatusOf(s: Student): (r: PaymentStatus)
    ensures r == Paid <==> s.feesPaid >= s.feesDue
    ensures r == Outstanding <==> s.feesDue - OverdueThreshold <= s.feesPaid < s.feesDue
    ensures r == Overdue <==> s.feesPaid < s.feesDue - OverdueThreshold
  {
    var balance := Balance(s);
    if balance <= 0 then Paid
    else if balance <= OverdueThreshold then Outstanding
    else Overdue
  }

  /** The classification at its two boundaries: 0.00 is paid, 100.00 is
      still outstanding and 100.01 is overdue. */
  lemma PaymentStatusBoundaries(s: Student)
    ensures Balance(s) == 0 ==> PaymentStatusOf(s) == Paid
    ensures Balance(s) == 10000 ==> PaymentStatusOf(s) == Outstanding
    ensures Balance(s) == 10001 ==> PaymentStatusOf(s) == Overdue
  {
  }

  /** Paying more never makes the status worse. */
  lemma {:induction false} PaymentStatusMonotone(s: Student, extra: nat)
    ensures var t := s.(feesPaid := s.feesPaid + extra);
      (PaymentStatusOf(s) == Paid ==> PaymentStatusOf(t) == Paid)
      && (PaymentStatusOf(s) == Outstanding ==> PaymentStatusOf(t) != Overdue)
  {
  }

  // ---------------------------------------------------------------- age

  /** The n-th anniversary of d, as a (year, month, day) triple. */
  function Anniversary(d: Date, n: int): Date
  {
    Date(d.year + n, d.month, d.day)
  }

  /** The age in whole years on `today` of someone born on dob, or None when
      the date of birth is not recorded. */
  function Age(dob: Option<Date>, today: Date): (r: Option<int>)
    ensures r.None? <==> dob.None?
    ensures r.Some? ==>
      !Before(today, Anniversary(dob.value, r.value))
      && Before(today, Anniversary(dob.value, r.value + 1))
  {
    match dob
    case None => None
    case Some(d) =>
      var notYet := today.month < d.month || (today.month == d.month && today.day < d.day);
      Some(today.year - d.year - (if notYet then 1 else 0))
  }

  /** The age is the only count of years whose anniversary has passed while
      the next one has not. */
  lemma AgeUnique(dob: Date, today: Date, n: int)
    requires !Before(today, Anniversary(dob, n)) && Before(today, Anniversary(dob, n + 1))
    ensures Age(Some(dob), today) == Some(n)
  {
  }

  /** Nobody born on or before `today` has a negative age. */
  lemma AgeNonNegative(dob: Date, today: Date)
    requires !Before(today, dob)
    ensures Age(Some(dob), today).value >= 0
  {
  }

  // ---------------------------------------------------------------- places

  /** Students enrolled in the grade with primary key g. */
  function StudentCount(students: seq<Student>, g: int): nat
  {
    |Filter(students, (s: Student) => s.grade == g)|
  }

  function GradeAvailableSpots(grade: Grade, students: seq<Student>): int
  {
    grade.capacity - StudentCount(students, grade.pk)
  }

  /** Enrolling one more student in a grade takes exactly one place from it
      and none from any other grade; nothing stops the count going negative. */
  lemma GradeSpotsAfterEnrolment(grade: Grade, students: seq<Student>, s: Student)
    ensures GradeAvailableSpots(grade, students + [s])
      == GradeAvailableSpots(grade, students) - (if s.grade == grade.pk then 1 else 0)
  {
    FilterAppend(students, s, (x: Student) => x.grade == grade.pk);
  }

  /** The free places of a grade lie between the capacity less every
      student and the full capacity, and are the full capacity exactly when
      no student is enrolled in it. */
  lemma GradeSpotsBounds(grade: Grade, students: seq<Student>)
    ensures grade.capacity - |students| <= GradeAvailableSpots(grade, students) <= grade.capacity
    ensures GradeAvailableSpots(grade, students) == grade.capacity <==>
      forall i :: 0 <= i < |students| ==> students[i].grade != grade.pk
  {
    var f := Filter(students, (x: Student) => x.grade == grade.pk);
    FilterMembers(students, (x: Student) => x.grade == grade.pk);
    if f != [] {
      assert f[0] in students && f[0].grade == grade.pk;
      var i :| 0 <= i < |students| && students[i] == f[0];
    }
  }

  /** Over-enrolment: 28 students in a grade of 30 leave 2 places, and 3 more
      leave -1. */
  lemma GradeSpotsOverEnrolled(grade: Grade, first: seq<Student>, more: seq<Student>)
    requires grade.capacity == 30 && |first| == 28 && |more| == 3
    requires forall s :: s in first + more ==> s.grade == grade.pk
    ensures GradeAvailableSpots(grade, first) == 2
    ensures GradeAvailableSpots(grade, first + more) == -1
  {
    FilterAll(first, (x: Student) => x.grade == grade.pk);
    FilterAll(first + more, (x: Student) => x.grade == grade.pk);
  }

  /** Participant rows of the activity with primary key a, active or not. */
  function ParticipantCount(participants: seq<Participant>, a: int): nat
  {
    |Filter(participants, (p: Participant) => p.activity == a)|
  }

  function ActivityAvailableSpots(activity: Activity, participants: seq<Participant>): int
  {
    activity.maxParticipants - ParticipantCount(participants, activity.pk)
  }

  /** The free places of an activity lie between its maximum less every
      participant row and the maximum, and are the maximum exactly when no
      row, active or not, belongs to it. */
  lemma ActivitySpotsBounds(activity: Activity, participants: seq<Participant>)
    ensures activity.maxParticipants - |participants| <= ActivityAvailableSpots(activity, participants)
    ensures ActivityAvailableSpots(activity, participants) <= activity.maxParticipants
    ensures ActivityAvailableSpots(activity, participants) == activity.maxParticipants <==>
      forall i :: 0 <= i < |participants| ==> participants[i].activity != activity.pk
  {
    var f := Filter(participants, (x: Participant) => x.activity == activity.pk);
    FilterMembers(participants, (x: Participant) => x.activity == activity.pk);
    if f != [] {
      assert f[0] in participants && f[0].activity == activity.pk;
      var i :| 0 <= i < |participants| && participants[i] == f[0];
    }
  }

  /** A new participant row takes a place whether or not it is active. */
  lemma ActivitySpotsAfterJoin(activity: Activity, participants: seq<Participant>, p: Participant)
    requires p.activity == activity.pk
    ensures ActivityAvailableSpots(activity, participants + [p])
      == ActivityAvailableSpots(activity, participants) - 1
  {
    FilterAppend(participants, p, (x: Participant) => x.activity == activity.pk);
  }

  // ---------------------------------------------------------------- identifiers

  const StudentPrefix: string := "STU"
  const StaffPrefix: string := "STF"

  /** The identifier `prefix-nnnn` with n zero-padded to at least 4 digits. */
  function FormatId(prefix: string, n: nat): string
  {
    prefix + "-" + ZeroPad(n, 4)
  }

  /** A formatted identifier reads back: the part after its last hyphen is
      the padded number, at least four digits long, and int() of it is n. */
  lemma FormatIdParsesBack(prefix: string, n: nat)
    ensures AfterLast(FormatId(prefix, n), '-') == ZeroPad(n, 4)
    ensures |ZeroPad(n, 4)| >= 4
    ensures ParseInt(AfterLast(FormatId(prefix, n), '-')) == Some(n)
  {
    var suffix := ZeroPad(n, 4);
    assert FormatId(prefix, n) == prefix + ['-'] + suffix;
    assert '-' !in suffix by {
      assert forall i :: 0 <= i < |suffix| ==> IsDigit(suffix[i]);
    }
    AfterLastJoin(prefix, '-', suffix);
    ParseZeroPad(n, 4);
  }

  /** The identifier given to a new record when the most recently inserted
      record of its table has identifier `last` (None: the table is empty).
      The number after the last hyphen of `last` is incremented; an
      identifier without a hyphen counts as 0; a suffix that is not a
      number makes int() raise, and the insertion fails. */
  function NextId(prefix: string, last: Option<string>): (r: Result<string>)
    ensures last.None? ==> r == Ok(prefix + "-0001")
    ensures last.Some? && '-' !in last.value ==> r == Ok(prefix + "-0001")
    ensures r.Err? ==> r.error == MalformedIdSuffix && last.Some? && '-' in last.value
    ensures r.Ok? ==> exists n: nat :: n >= 1 && r.value == FormatId(prefix, n)
    ensures last.Some? && '-' in last.value ==>
      (r.Ok? <==> ParseInt(AfterLast(last.value, '-')).Some?)
    ensures last.Some? && '-' in last.value && r.Ok? ==>
      r.value == FormatId(prefix, ParseInt(AfterLast(last.value, '-')).value + 1)
  {
    match last
    case None =>
      assert FormatId(prefix, 1) == prefix + "-0001";
      Ok(prefix + "-0001")
    case Some(id) =>
      var previous := if '-' in id then ParseInt(AfterLast(id, '-')) else Some(0);
      match previous
      case None => Err(MalformedIdSuffix)
      case Some(k) =>
        assert k >= 0;
        assert '-' !in id ==> FormatId(prefix, k + 1) == prefix + "-0001";
        Ok(FormatId(prefix, k + 1))
  }

  /** The identifier a record is saved with: a non-empty supplied
      identifier is kept as it is, an empty one is generated. */
  function AssignId(prefix: string, supplied: string, last: Option<string>): (r: Result<string>)
    ensures supplied != [] ==> r == Ok(supplied)
    ensures supplied == [] ==> r == NextId(prefix, last)
  {
    if supplied != [] then Ok(supplied) else NextId(prefix, last)
  }

  /** Consecutive generation: after `prefix-n` (written by any prefix) comes
      `prefix-(n+1)`, so an empty table filled without supplied identifiers
      receives STU-0001, STU-0002, STU-0003, ... */
  lemma NextIdIncrements(prefix: string, other: string, n: nat)
    ensures NextId(prefix, Some(FormatId(other, n))) == Ok(FormatId(prefix, n + 1))
  {
    FormatIdParsesBack(other, n);
    assert FormatId(other, n)[|other|] == '-';
  }

  /** Any digit string after the last hyphen is read and incremented, padded
      or not, with leading zeros or not: a supplied STU-12 is followed by
      STU-0013, and STU-00012 likewise. */
  lemma NextIdAfterDigits(prefix: string, head: string, ds: string)
    requires ds != [] && AllDigits(ds)
    ensures NextId(prefix, Some(head + "-" + ds)) == Ok(FormatId(prefix, DigitsValue(ds) + 1))
  {
    var id := head + "-" + ds;
    HyphenThenDigits(head, ds);
    ParseDigits(ds);
    assert ParseInt(AfterLast(id, '-')) == Some(DigitsValue(ds));
    var r := NextId(prefix, Some(id));
    assert r.Ok?;
    assert r.value == FormatId(prefix, DigitsValue(ds) + 1);
  }

  /** `head-ds` with ds made of digits has a hyphen, and ds after its last one. */
  lemma HyphenThenDigits(head: string, ds: string)
    requires AllDigits(ds)
    ensures '-' in head + "-" + ds
    ensures AfterLast(head + "-" + ds, '-') == ds
  {
    var id := head + "-" + ds;
    assert id[|head|] == '-';
    assert '-' !in ds by {
      assert forall i :: 0 <= i < |ds| ==> IsDigit(ds[i]);
    }
    assert id == head + ['-'] + ds;
    AfterLastJoin(head, '-', ds);
  }

  /** A kept, unpadded identifier continues the numbering. */
  lemma NextIdAfterUnpadded()
    ensures NextId(StudentPrefix, Some("STU-12")) == Ok(FormatId(StudentPrefix, 13))
  {
    assert "STU-12" == "STU" + "-" + "12";
    NextIdAfterDigits(StudentPrefix, "STU", "12");
    assert DigitsValue("12") == 12 by {
      assert "12"[..1] == "1";
    }
  }

  /** The assignment fails exactly when int() rejects the part after the
      last hyphen: nothing there, a lone sign, or any character that is
      not a digit (STU-, STU-abc, STU-1a2). */
  lemma NextIdMalformed(prefix: string, last: string)
    requires '-' in last
    ensures NextId(prefix, Some(last)).Err? <==> NotAnInt(AfterLast(last, '-'))
    ensures NextId(prefix, Some(last)).Err? ==> NextId(prefix, Some(last)).error == MalformedIdSuffix
  {
    ParseIntFails(AfterLast(last, '-'));
  }

  /** A letter inside the number is rejected as int() rejects it. */
  lemma NextIdInnerLetter()
    ensures NextId(StudentPrefix, Some("STU-1a2")) == Err(MalformedIdSuffix)
  {
    assert "STU-1a2" == "STU" + ['-'] + "1a2";
    AfterLastJoin("STU", '-', "1a2");
    assert "1a2"[1] == 'a';
    NextIdMalformed(StudentPrefix, "STU-1a2");
  }
}
