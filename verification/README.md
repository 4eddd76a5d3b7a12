# School management core in Dafny

A model of the logic in a Django school-management site. The site keeps these records:

- grades, students and staff;
- notifications, events and activities;
- activity participants and fee payments.

The model covers the rules computed from a single record:

- a student's balance, payment status and age;
- the free places of a grade or an activity;
- the sequential `STU-nnnn` / `STF-nnnn` identifiers that `Student.save` and `Staff.save` assign.

It also covers the database those records live in:

- the unique columns;
- the cascade and set-null rules declared on each foreign key;
- the insert, edit and delete operations of the views.

It covers the pages' computations over the student list:

- the outstanding-fee totals and the collection rate;
- the outstanding / paid / recent filters;
- the per-grade outstanding amounts built by the finance page's loop;
- the JSON status of the students endpoint;
- the case-insensitive searches and the staff role filter.

Finally, it covers the non-random parts of the seeding command:

- the grade number read back from a grade name;
- the age range a date of birth is drawn from;
- the ranges of the seeded fee amounts.

Money is held in integer cents, so the 100.00 overdue threshold is 10000. A date is a `(year, month, day)` triple compared lexicographically. "Today" is a parameter.

The modules are these:

- `Common` holds filtering and summing over sequences.
- `Text` covers decimal digits, `int()`, `split()`, `str.lower()` and substring search.
- `Models` has one datatype per record and the single-record rules of `pages/models.py`.
- `Schema` is the whole database as a value `Tables`, the integrity it keeps (`Consistent`), and every insertion, deletion and edit as a function on `Tables`.
- `Integrity` proves that every operation keeps `Consistent`. It also proves what each deletion removes or unlinks, and how identifiers continue.
- `Store` is the database as a class `SchoolStore`. Its fields are one sequence per table plus the next primary key. Its methods update those fields in place, and each one is specified by the `Schema` function it carries out.
- `Views` covers the computations of `pages/views.py`. The finance page's dictionary loop is the method `GradeStats`.
- `Seed` covers `extract_grade_number` and the seeded ranges.

## Model

| member | source | states |
|---|---|---|
| Models.PaymentStatusOf | pages/models.py:103-110 | 'paid' iff the balance is at most 0. 'outstanding' iff the balance is in (0, 100.00]. 'overdue' iff the balance is above 100.00. |
| Models.PaymentStatusBoundaries | pages/models.py:103-110 | A balance of 0 is paid, 100.00 is outstanding and 100.01 is overdue. |
| Models.PaymentStatusMonotone | pages/models.py:100-110 | Paying more never worsens the status: paid stays paid and outstanding never becomes overdue. |
| Models.Age | pages/models.py:112-117 | None exactly when there is no date of birth. Otherwise n such that today is on or after the n-th birthday and before the (n+1)-th: the year difference minus one when (month, day) of today precedes the birthday. |
| Models.AgeUnique | pages/models.py:112-117 | Any n bracketed by the n-th and (n+1)-th birthdays is the age, so the age is determined by the birthday bracket. |
| Models.AgeNonNegative | pages/models.py:112-117 | A date of birth not after today gives an age of at least 0. |
| Models.GradeSpotsAfterEnrolment | pages/models.py:34-38 | Enrolling a student of the grade lowers its available spots by exactly one; a student of another grade leaves them unchanged. |
| Models.GradeSpotsOverEnrolled | pages/models.py:34-38 | Available spots are not clamped: capacity 30 with 28 students leaves 2, and with 31 students gives -1. |
| Models.ActivitySpotsAfterJoin | pages/models.py:274-278 | Every new participant row of the activity, active or not, lowers its available spots by one. |
| Models.NextId | pages/models.py:91-97 | An empty table or a last ID without a hyphen gives `prefix-0001`. After a hyphen, the assignment succeeds exactly when `int()` accepts the part after the last hyphen, and then gives `prefix-` with that number plus one, padded to four digits. A failure is only the unreadable-suffix error. |
| Models.AssignId | pages/models.py:89-98 | A non-empty supplied ID is kept unchanged. An empty one is generated from the last row's ID. |
| Models.NextIdIncrements | pages/models.py:94-95 | After a last ID `X-n` (any prefix X, n padded), the next ID is `prefix-(n+1)` padded to four digits. |
| Models.NextIdMalformed | pages/models.py:94 | For a last ID with a hyphen, the assignment fails, with the unreadable-suffix error, exactly when the part after the last hyphen is empty, a lone sign, or holds a character that is neither a digit nor a leading sign. |
| Models.NextIdAfterDigits | pages/models.py:94-95 | After `head-ds`, for any non-empty digit string ds (unpadded or with extra zeros), the next ID is `prefix-` with the value of ds plus one, padded to four digits. |
| Models.NextIdAfterUnpadded | pages/models.py:94-95 | A kept ID `STU-12` is followed by `STU-0013`. |
| Models.NextIdInnerLetter | pages/models.py:94 | `STU-1a2` makes the assignment fail, as `int('1a2')` raises. |
| Models.FormatIdParsesBack | pages/models.py:95 | `FormatId` reads back: the part after its last hyphen is the number padded to at least four digits, and `int()` of it is the number. |
| Models.OverpaidBalance | pages/models.py:100-101 | `Balance` is due minus paid with no clamp: an overpaid student has a negative balance equal to minus the overpayment, and is 'paid'. |
| Models.GradeSpotsBounds | pages/models.py:34-38 | `StudentCount` / `GradeAvailableSpots`: the free places lie between the capacity less the number of students and the capacity. They are the full capacity exactly when no student is in the grade. |
| Models.ActivitySpotsBounds | pages/models.py:274-278 | `ParticipantCount` / `ActivityAvailableSpots`: the free places lie between the maximum less the number of participant rows and the maximum. They are the maximum exactly when no row, active or not, belongs to the activity. |
| Text.ParseInt | pages/models.py:94 | `int()`: the empty string fails, a success without a minus sign is non-negative, and a success ends in a digit. The values are given by `Text.ParseDigits` and `Text.ParseSigned`, the failures by `Text.ParseIntFails`. |
| Text.ParseDigits | pages/models.py:94 | `int()` of a non-empty digit string is its decimal value, leading zeros included. |
| Text.ParseSigned | pages/models.py:94 | `int()` of a digit string with a leading `+` is the digits' value, and with a leading `-` its negation. |
| Text.ParseIntFails | pages/models.py:94 | `int()` fails exactly on the empty string, a lone sign, or a string with a character that is neither a digit nor a leading sign. |
| Text.AfterLast | pages/models.py:94 | `split('-')[-1]`: the longest hyphen-free suffix; it is preceded by a hyphen when the string has one, and is the whole string otherwise. |
| Text.Words | pages/management/commands/seed.py:372 | `split()`: every word is non-empty and free of whitespace, and the empty string has no words. `Text.WordsSplitAtSpace` and `Text.WordsOfWord` fix the words of every string. |
| Text.WordsOfWord | pages/management/commands/seed.py:372 | A non-empty string without whitespace is one word. |
| Text.WordsOfTwo | pages/management/commands/seed.py:372 | Two such words joined by one space split back into the two. |
| Text.WordsSplitAtSpace | pages/management/commands/seed.py:372 | `split()` cuts at every whitespace character: the words of `a + c + b`, with c whitespace, are the words of a followed by those of b. |
| Text.ParseZeroPad | pages/models.py:94-95 | `int()` of the four-digit padded number gives the number back, so formatting then parsing an ID suffix round-trips. |
| Text.AfterLastJoin | pages/models.py:94 | `split('-')[-1]` of `a-b` with no hyphen in b is b. |
| Store.GenerateId | pages/models.py:89-98 | The steps of `save()` that keep a supplied ID, or read the last suffix and format the next one, compute exactly AssignId. |
| Schema.EmptyConsistent | pages/models.py:21-45 | The empty database satisfies every key, reference and uniqueness invariant. |
| Schema.LastStudentHasHighestPk | pages/models.py:92 | The last row of the students table has the highest primary key, so it is the row `order_by('-id').first()` picks. |
| Schema.AddGrade | pages/models.py:22 | Adding a grade fails exactly when the name is already taken, and then with the duplicate-name error. |
| Schema.AddNotification | pages/models.py:197-204 | Succeeds exactly when the target grade and the author are absent or exist. Its effect is in `Integrity.AddNotificationAppends`. |
| Schema.AddEvent | pages/models.py:230-235 | Succeeds exactly when every target grade exists and the author is absent or exists. Its effect is in `Integrity.AddEventAppends`. |
| Schema.AddActivity | pages/models.py:259 | Succeeds exactly when the instructor is absent or exists. Its effect is in `Integrity.AddActivityAppends`. |
| Schema.AddParticipant | pages/models.py:282-288 | Fails exactly when the activity or the student is missing, or the pair is already enrolled. Its effect is in `Integrity.AddParticipantAppends`. |
| Schema.AddPayment | pages/models.py:303-312 | Succeeds exactly when the student exists and the recorder is absent or exists. Its effect is in `Integrity.AddPaymentAppends`. |
| Schema.ClearTargetGrade | pages/models.py:197 | Exactly the notifications aimed at the grade lose their target; all others are unchanged. |
| Schema.DropTargetGrade | pages/models.py:230 | Every event's target set loses the grade and nothing else. |
| Schema.DeleteGrade | pages/views.py:275-280 | Fails exactly when the grade does not exist. |
| Schema.DeleteStudent | pages/views.py:134-139 | Fails exactly when the student does not exist. |
| Schema.DeleteActivity | pages/views.py:479-485 | Fails exactly when the activity does not exist. |
| Schema.DeleteStaff | pages/views.py:203-208 | Fails exactly when the staff member does not exist. |
| Schema.DeleteNotification | pages/views.py:379-385 | Fails exactly when the notification does not exist. Its effect is in `Integrity.DeleteNotificationRemovesExactly`. |
| Schema.DeleteEvent | pages/views.py:455-461 | Fails exactly when the event does not exist. Its effect is in `Integrity.DeleteEventRemovesExactly`. |
| Schema.EditStudent | pages/views.py:114-124 | Fails exactly when the student or the new grade does not exist. |
| Schema.UpdateFees | pages/views.py:313-320 | Fails exactly when the student does not exist. |
| Schema.EditStaff | pages/views.py:186-194 | Fails exactly when the staff member does not exist. Its effect is in `Integrity.EditStaffChangesOneRow`. |
| Schema.EditGrade | pages/views.py:261-267 | Fails exactly when the grade is missing or another grade already has the new name. Its effect is in `Integrity.EditGradeRenamesOne`. |
| Schema.EditEventTitle | pages/views.py:439-447 | Fails exactly when the event does not exist. |
| Schema.EditActivityTitle | pages/views.py:463-471 | Fails exactly when the activity does not exist. |
| Integrity.AssignedIdNonEmpty | pages/models.py:89-98 | An assigned identifier is never empty. |
| Integrity.AddStudentOutcome | pages/models.py:89-98 | The contract of `Schema.AddStudent` (the view's create at pages/views.py:98-105 with `Student.save`), branch by branch. A missing grade is not-found. An unreadable last suffix fails. An assigned ID already in use violates the unique column. Otherwise exactly one row is appended, with the next primary key and the assigned ID. |
| Integrity.AddStudentAppends | pages/models.py:89-98 | A successful insertion appends exactly one new student, with the assigned, unused ID and an existing grade. |
| Integrity.AddStudentConsistent | pages/models.py:44-45 | Adding a student keeps the database consistent and changes nothing but the students table and the key counter. |
| Integrity.AppendStudentConsistent | pages/models.py:44-45 | Appending a student with a fresh key, an existing grade and an unused, non-empty ID keeps every invariant. |
| Integrity.AddStaffOutcome | pages/models.py:165-174 | The contract of `Schema.AddStaff` (the view's create with `Staff.save`), branch by branch: the assignment error, the duplicate-ID error, or exactly one row appended with the next primary key and the assigned ID. |
| Integrity.AddStaffAppends | pages/models.py:165-174 | A successful insertion appends exactly one staff row, with an unused assigned ID. |
| Integrity.AddStaffConsistent | pages/models.py:132 | Adding a staff member keeps the database consistent and changes nothing but the staff table and the counter. |
| Integrity.AppendStaffConsistent | pages/models.py:132 | Appending a staff member with a fresh key and an unused, non-empty ID keeps every invariant. |
| Integrity.AddGradeAppends | pages/views.py:252 | A successful grade insertion appends exactly one grade, with a name no other grade has. |
| Integrity.AddGradeConsistent | pages/models.py:22 | Adding a grade keeps the database consistent. |
| Integrity.AppendGradeConsistent | pages/models.py:22 | Appending a grade with a fresh key and an unused name keeps every invariant. |
| Integrity.AddNotificationConsistent | pages/models.py:197-204 | Adding a notification keeps the database consistent. |
| Integrity.AddEventConsistent | pages/models.py:230-235 | Adding an event keeps the database consistent. |
| Integrity.AddActivityConsistent | pages/models.py:259 | Adding an activity keeps the database consistent. |
| Integrity.AddParticipantConsistent | pages/models.py:282-288 | Adding a participant keeps the database consistent, including the unique (activity, student) pair. |
| Integrity.AddPaymentConsistent | pages/models.py:303-312 | Adding a payment keeps the database consistent. |
| Integrity.AddNotificationAppends | pages/models.py:197-204 | A successful insertion appends one notification under the next key with the given message, date, target grade and author. No other table changes. |
| Integrity.AddEventAppends | pages/models.py:230-235 | A successful insertion appends one event under the next key with the given title, target grades and author. No other table changes. |
| Integrity.AddActivityAppends | pages/models.py:255-264 | A successful insertion appends one active activity under the next key with the given title, instructor and maximum. No other table changes. |
| Integrity.AddParticipantAppends | pages/models.py:274-288 | A successful join appends one active (activity, student) row under the next key. That activity's available spots fall by one, every other activity's stay, and no other table changes. |
| Integrity.AddPaymentAppends | pages/models.py:303-312 | A successful insertion appends one payment under the next key with the given student, amount and recorder. No other table changes. |
| Integrity.AddStudentContinuesSequence | pages/models.py:91-97 | Students numbered 1..n in order lead to an insertion without a supplied ID that succeeds with `STU-(n+1)` and keeps the numbering consecutive. |
| Integrity.ConsecutiveAppend | pages/models.py:91-97 | Appending `STU-(n+1)` to consecutively numbered students keeps them consecutive. |
| Integrity.AddStudentFreshId | pages/models.py:91-98 | When the generated ID is unused and the grade exists, the insertion appends the row with that ID. |
| Integrity.ConsecutiveNextId | pages/models.py:92-95 | With consecutive numbering the generated ID is `STU-(n+1)`. |
| Integrity.ConsecutiveNoClash | pages/models.py:44 | With consecutive numbering the generated ID is not yet in use. |
| Integrity.FormatIdInjective | pages/models.py:95 | Two numbers formatted with the same prefix give the same ID only when they are equal. |
| Integrity.LastRowDecides | pages/models.py:92-95 | The last row decides, not the largest suffix: rows `STU-0002`, `STU-0001` make the next ID `STU-0002`, which the unique column rejects. |
| Integrity.DeleteGradeRemovesExactly | pages/models.py:45 | Deleting a grade removes exactly the grade, its students, their payments and their participant rows. It keeps staff and activities. Notifications aimed at it lose their target, events drop it, and nothing else changes. |
| Integrity.GradePksAfterDelete | pages/models.py:45 | The grade keys after deleting g are the old ones minus g. |
| Integrity.DeleteGradeConsistent | pages/models.py:45 | Deleting a grade keeps the database consistent: no student, payment or participant is left pointing at a deleted row. |
| Integrity.DeleteGradeKeys | pages/models.py:45 | Deleting a grade keeps every table's keys ascending and below the counter. |
| Integrity.DeleteGradeRefs | pages/models.py:197 | After deleting a grade, every grade and staff reference still resolves. |
| Integrity.DeleteGradeStudentRefs | pages/models.py:283 | After deleting a grade, every payment and participant refers to a remaining student. |
| Integrity.DeleteGradeUnique | pages/models.py:22 | Deleting a grade keeps every unique column unique. |
| Integrity.DeleteStudentRemovesExactly | pages/models.py:283 | Deleting a student removes exactly the student and its payments and participant rows, and leaves every other table unchanged. |
| Integrity.DeleteStudentKeys | pages/models.py:303 | Deleting a student keeps keys ascending. |
| Integrity.DeleteStudentRefs | pages/models.py:303 | After deleting a student, every reference still resolves. |
| Integrity.DeleteStudentUnique | pages/models.py:288 | Deleting a student keeps every unique column unique. |
| Integrity.DeleteStudentConsistent | pages/models.py:283 | Deleting a student keeps the database consistent. |
| Integrity.DeleteActivityRemovesExactly | pages/models.py:282 | Deleting an activity removes exactly the activity and its participant rows, and leaves every other table unchanged. |
| Integrity.DeleteActivityConsistent | pages/models.py:282 | Deleting an activity keeps the database consistent. |
| Integrity.DeleteStaffOnlyUnlinks | pages/models.py:204 | Deleting a staff member removes only that row and keeps the order of the others. Every notification, event, activity and payment survives, with exactly its reference to the member set to null. Grades, students, participant rows and the key counter are unchanged. |
| Integrity.DeleteStaffConsistent | pages/models.py:259 | Deleting a staff member keeps the database consistent. |
| Integrity.DeleteStaffKeys | pages/models.py:132 | Deleting a staff member keeps keys ascending. |
| Integrity.UnlinkResolves | pages/models.py:312 | A nullable staff reference that resolved before the deletion resolves afterwards once set to null. |
| Integrity.DeleteStaffRefs | pages/models.py:235 | After deleting a staff member, every reference resolves. |
| Integrity.DeleteNotificationConsistent | pages/views.py:379-385 | Deleting a notification keeps the database consistent. |
| Integrity.DeleteEventConsistent | pages/views.py:455-461 | Deleting an event keeps the database consistent. |
| Integrity.DeleteNotificationRemovesExactly | pages/views.py:379-385 | A notification survives exactly when it existed and its key is not the deleted one. The survivors keep their order, and no other table changes. |
| Integrity.DeleteEventRemovesExactly | pages/views.py:455-461 | An event survives exactly when it existed and its key is not the deleted one. The survivors keep their order, and no other table changes. |
| Integrity.EditStudentChangesOneRow | pages/views.py:119-124 | Editing a student rewrites only that row's form fields. Its key, ID and enrolment date stay, and every other row and table is unchanged. |
| Integrity.StudentsRewrittenPks | pages/views.py:119-124 | Rewriting student rows in place keeps the set of student keys. |
| Integrity.StudentsRewrittenConsistent | pages/models.py:44-45 | Rewriting student rows in place, keeping keys and IDs and pointing at existing grades, keeps consistency. |
| Integrity.StudentsRewrittenRefs | pages/models.py:45 | Such a rewrite keeps every reference resolving. |
| Integrity.StudentsRewrittenKeys | pages/models.py:41-45 | Such a rewrite keeps keys ascending. |
| Integrity.StudentsRewrittenUnique | pages/models.py:44 | Such a rewrite keeps student IDs unique. |
| Integrity.EditStudentConsistent | pages/views.py:114-124 | Editing a student keeps the database consistent. |
| Integrity.UpdateFeesConsistent | pages/views.py:313-320 | Updating fees keeps the database consistent. |
| Integrity.UpdateFeesOnlyFees | pages/views.py:318-319 | The fee form changes only the two fee amounts of the one student. An amount left out of the form keeps its recorded value. |
| Integrity.EditStaffConsistent | pages/views.py:186-194 | Editing a staff member keeps the database consistent. |
| Integrity.StaffRewrittenConsistent | pages/models.py:132 | Rewriting staff rows in place, keeping keys and IDs, keeps consistency. |
| Integrity.StaffRewrittenPks | pages/models.py:132 | Such a rewrite keeps the set of staff keys. |
| Integrity.StaffRewrittenKeys | pages/models.py:120-132 | Such a rewrite keeps keys ascending. |
| Integrity.StaffRewrittenUnique | pages/models.py:132 | Such a rewrite keeps staff IDs unique. |
| Integrity.StaffRewrittenRefs | pages/models.py:204 | Such a rewrite keeps every reference resolving. |
| Integrity.EditStaffChangesOneRow | pages/views.py:186-194 | The edited row takes the submitted name and role, and the submitted joining date when one is given (otherwise it keeps its own). Every row keeps its key and staff ID, and every other row and table is unchanged. |
| Integrity.EditStaffKeepsDate | pages/views.py:193 | An edit without a joining date keeps every row's joining date and staff ID. |
| Integrity.EditGradeRenamesOne | pages/views.py:261-267 | The renamed grade takes the new name. Its other fields, every other grade and every other table stay as they were. |
| Integrity.EditGradeKeepsPks | pages/views.py:266-267 | Renaming a grade changes only the grades table and keeps every grade's key. |
| Integrity.EditGradeNamesDistinct | pages/models.py:22 | After a successful rename, grade names are still distinct. |
| Integrity.EditGradeConsistent | pages/views.py:261-267 | Renaming a grade keeps the database consistent. |
| Integrity.GradesRenamedConsistent | pages/models.py:22 | Renaming grades in place, keeping keys and distinct names, keeps consistency. |
| Integrity.GradesRenamedRefs | pages/models.py:45 | Such a renaming keeps every reference resolving. |
| Integrity.GradesRenamedKeys | pages/models.py:21-22 | Such a renaming keeps keys ascending. |
| Integrity.EditEventTitleOnlyTitle | pages/views.py:445-447 | Editing an event changes only that event's title. |
| Integrity.EditEventTitleConsistent | pages/views.py:439-447 | Editing an event keeps the database consistent. |
| Integrity.EventsRetitledConsistent | pages/models.py:230-235 | Changing event titles only keeps consistency. |
| Integrity.EditActivityTitleOnlyTitle | pages/views.py:469-471 | Editing an activity changes only that activity's title, and keeps the activity keys. |
| Integrity.EditActivityTitleConsistent | pages/views.py:463-471 | Editing an activity keeps the database consistent. |
| Integrity.ActivitiesRetitledConsistent | pages/models.py:259-260 | Changing activity titles only keeps consistency. |
| Store.SchoolStore.constructor | pages/models.py:21-45 | A new store is empty and consistent. |
| Store.SchoolStore.Load | pages/views.py:96-110 | The write step of a committed operation: given consistent tables, the store takes exactly them and stays valid. |
| Store.SchoolStore.Commit | pages/views.py:96-110 | A successful outcome, which must be consistent, replaces the tables. A failed one leaves every table as it was and reports the error. The store stays valid either way. |
| Store.SchoolStore.InsertStudent | pages/models.py:89-98 | `Student.objects.create` with `save()`: carries out AddStudent in place and keeps the store consistent. On success it returns the new row with the next key and the assigned ID, appended after the old rows. On failure nothing changes and the error is returned. |
| Store.SchoolStore.InsertStaff | pages/models.py:165-174 | `Staff.objects.create` with `save()`: carries out AddStaff in place, keeps consistency, and returns the appended row or the error. |
| Store.SchoolStore.InsertGrade | pages/views.py:249-252 | Carries out AddGrade in place and keeps consistency. A duplicate name is reported and leaves the store unchanged. |
| Store.SchoolStore.InsertNotification | pages/views.py:364-372 | Carries out AddNotification in place and keeps consistency. |
| Store.SchoolStore.InsertEvent | pages/views.py:335-338 | Carries out AddEvent in place and keeps consistency. |
| Store.SchoolStore.InsertActivity | pages/views.py:347-350 | Carries out AddActivity in place and keeps consistency. |
| Store.SchoolStore.InsertParticipant | pages/models.py:281-288 | Carries out AddParticipant in place and keeps consistency. A repeated (activity, student) pair is reported and leaves the store unchanged. |
| Store.SchoolStore.InsertPayment | pages/models.py:294-312 | Carries out AddPayment in place and keeps consistency. |
| Store.SchoolStore.RemoveGrade | pages/views.py:275-280 | Carries out DeleteGrade, with its cascade and set-null rules, in place. Keeps consistency. |
| Store.SchoolStore.RemoveStudent | pages/views.py:134-139 | Carries out DeleteStudent, with its cascades, in place. Keeps consistency. |
| Store.SchoolStore.RemoveStaff | pages/views.py:203-208 | Carries out DeleteStaff, with its set-null rules, in place. Keeps consistency. |
| Store.SchoolStore.RemoveActivity | pages/views.py:479-485 | Carries out DeleteActivity in place and keeps consistency. |
| Store.SchoolStore.RemoveNotification | pages/views.py:379-385 | Carries out DeleteNotification in place and keeps consistency. |
| Store.SchoolStore.RemoveEvent | pages/views.py:455-461 | Carries out DeleteEvent in place and keeps consistency. |
| Store.SchoolStore.SaveStudent | pages/views.py:114-124 | Carries out EditStudent in place and keeps consistency. |
| Store.SchoolStore.SaveFees | pages/views.py:313-320 | Carries out UpdateFees in place and keeps consistency. |
| Store.SchoolStore.SaveStaff | pages/views.py:186-194 | Carries out EditStaff in place and keeps consistency. |
| Store.SchoolStore.SaveGrade | pages/views.py:261-267 | Carries out EditGrade in place. A name taken by another grade is reported and leaves the store unchanged. |
| Store.SchoolStore.SaveEventTitle | pages/views.py:439-447 | Carries out EditEventTitle in place and keeps consistency. |
| Store.SchoolStore.SaveActivityTitle | pages/views.py:463-471 | Carries out EditActivityTitle in place and keeps consistency. |
| Views.OutstandingFeesBounds | pages/views.py:18-20 | `OutstandingFees` (the sum of the positive balances only) is at least 0 and at least `TotalDue` minus `TotalPaid`, and equals that difference when nobody is in credit. |
| Views.OutstandingFeesAppend | pages/views.py:291-293 | The outstanding total of two lists together is the sum of their totals. |
| Views.CollectionPercentage | pages/views.py:27 | With fees due, the rate times the total due is the total paid times 100. Without fees due it is exactly 0. |
| Views.CollectionPercentageInRange | pages/views.py:309 | When no student has paid more than was due, the rate lies between 0 and 100. |
| Views.InsertByEnrolment | pages/views.py:161 | Inserting a student into a newest-first list keeps it newest-first and adds exactly that student. |
| Views.SortByEnrolment | pages/views.py:161 | `order_by('-enrolled_on')`: the result is newest-first and a permutation of the input. |
| Views.RecentlyEnrolled | pages/views.py:161 | The recent list holds min(n, 10) students, newest-first, all drawn from the input. |
| Views.RecentAreNewest | pages/views.py:160-161 | No student left out of the recent list enrolled later than one in it. |
| Views.FilterStudents | pages/views.py:153-163 | 'outstanding' keeps exactly the students with a positive balance. 'paid' keeps exactly those with balance at most 0. 'recent' is exactly `RecentlyEnrolled`: the ten most recently enrolled students (or all, if fewer), newest first. Any other filter returns the list unchanged. |
| Views.OutstandingPaidPartition | pages/views.py:156-159 | The outstanding and paid lists together are a permutation of the student list, and each keeps the list's order. |
| Views.ApiFilterStudents | pages/views.py:398-406 | The endpoint has no 'recent' filter: 'recent' returns everybody. Other filters behave as on the page. |
| Views.GradeNameOfFinds | pages/views.py:299 | `student.grade.name` finds the name of the student's grade. |
| Views.KeyIndex | pages/views.py:300 | The dictionary membership test: the index of the key, or -1 exactly when the key is absent. |
| Views.AddTo | pages/views.py:300-302 | `d[k] = d.get(k, 0) + v`: keys stay distinct, k is added, the values' sum grows by v, and other entries are unchanged. |
| Views.OutstandingByGrade | pages/views.py:296-302 | The per-grade dictionary has distinct keys. |
| Views.GradeStats | pages/views.py:296-302 | The loop over students computes exactly OutstandingByGrade. |
| Views.OutstandingByGradeKeys | pages/views.py:296-302 | The keys are exactly the grade names of students with a positive balance. |
| Views.OutstandingByGradePositive | pages/views.py:298 | Every value is positive. |
| Views.OutstandingByGradeTotal | pages/views.py:291-302 | The values sum to the outstanding total. |
| Views.OutstandingByGradeValues | pages/views.py:296-302 | Each grade's value is the sum of the positive balances of that grade's students. |
| Views.ApiStatus | pages/views.py:413 | 'outstanding' exactly when the balance is positive, 'paid' exactly when it is not. |
| Views.ApiStatusFoldsOverdue | pages/views.py:413 | The endpoint status is never 'overdue'. It is 'paid' exactly when the payment status is paid, and 'outstanding' when it is outstanding or overdue. |
| Views.StudentsApi | pages/views.py:408-416 | One row per selected student, in order, carrying its key, name, grade name and balance. The status agrees with the balance's sign, so the outstanding filter yields only 'outstanding' rows and the paid filter only 'paid' rows. |
| Views.SearchStudents | pages/views.py:141-151 | An empty query lists everybody. Otherwise it keeps exactly the students whose name or grade name contains the query, ignoring case, in list order. |
| Views.EmptyQueryMatchesAll | pages/views.py:145-149 | Filtering with the empty query would keep everybody too. |
| Views.SearchIgnoresQueryCase | pages/views.py:146-148 | A query and its lower-case spelling find the same students. |
| Views.SearchStaff | pages/views.py:210-220 | An empty query lists everybody. Otherwise it keeps exactly the staff whose name or role contains the query, ignoring case, in order. |
| Views.FilterStaff | pages/views.py:222-232 | 'teachers', 'admin' and 'support' keep exactly the staff with role Teacher, Admin or Support, in order. Any other filter returns the list unchanged. |
| Views.StaffFiltersDisjoint | pages/views.py:225-230 | A teacher is listed under neither 'admin' nor 'support'. |
| Views.OtherRolesUnfiltered | pages/views.py:225-230 | Principals, vice principals and counselors appear under none of the three filters. |
| Seed.ExtractGradeNumber | pages/management/commands/seed.py:368-377 | A name with "Grade" gives the integer value of its second word, or None when that word is missing or not an integer. A name with only "Kindergarten" gives 0. Any other name gives None. |
| Seed.GradeNameNumber | pages/management/commands/seed.py:371-372 | "Grade n" gives n. |
| Seed.KindergartenIsZero | pages/management/commands/seed.py:373-374 | "Kindergarten" gives 0. |
| Seed.GradeTestFirst | pages/management/commands/seed.py:371-374 | "Grade Kindergarten" gives None: the "Grade" test comes first. |
| Seed.GradeWithoutNumber | pages/management/commands/seed.py:376-377 | "Grade" alone gives None rather than an IndexError. |
| Seed.SeedAgeRange | pages/management/commands/seed.py:100-109 | A true grade number n gives the ages n+4 to n+6. None and 0 give 5 to 18. |
| Seed.KindergartenTakesDefault | pages/management/commands/seed.py:100-109 | Kindergarten's 0 is falsy and takes the 5-18 default, not 4-6. |
| Seed.GradeAgeRangesWithinDefault | pages/management/commands/seed.py:100-106 | For Grades 1 to 12 the drawn range lies within 5 to 18. |
| Seed.SeedFees | pages/management/commands/seed.py:96-97 | Seeded fees due are between 500.00 and 2000.00 in whole units. Fees paid are between 0 and the fees due. |
| Seed.SeededTotals | pages/management/commands/seed.py:96-97 | Over seeded students the outstanding total is total due minus total paid, the collection rate lies in [0, 100], and a non-empty list has fees due. |

## Left out

- HTTP handling is not modelled: request parsing, templates, redirects, flash messages, JSON encoding and the 404 of `get_object_or_404`. A missing record is the `NotFound` error, and a failed operation leaves the store unchanged.
- Django ORM mechanics are not modelled: query building, `select_related`, `Meta.ordering`, indexes and `auto_now` timestamps. Each table is a sequence in insertion order, and lists are taken in that order.
- Primary keys come from one counter shared by all tables rather than one sequence per table. Only their order and freshness matter to the model.
- Fields no rule reads are not modelled (addresses, phone numbers, descriptions, schedules and the like).
- Floating point and `Decimal` are not modelled. Fees are integer cents and the collection rate is an exact real, so the rounding of `float()` conversions of form input does not appear.
- Text.ParseInt: accepts an optional sign and ASCII digits only. It does not accept the surrounding whitespace, underscores or non-ASCII digits that Python's `int()` also accepts.
- Text.Words: splits on ASCII whitespace only, not on the other Unicode whitespace `str.split()` recognises.
- Views.SearchStudents: `icontains` is modelled with ASCII case folding. Database collation and Unicode case folding are not modelled. The same holds for Views.SearchStaff.
- The race between two concurrent `save()` calls reading the same last identifier is not modelled: the store is sequential.
- Faker, `random` and `date.today()` are not modelled. The seeder's random draws and today's date are parameters, and the record-creating loops of the seeding command are not modelled.
- `timezone.now()` is the `today` parameter of Models.Age.
- `__str__` methods, the admin site, URL routing and the ModelForm are not modelled.
- Field validators (`MinValueValidator`) are not modelled, because Django does not run them on `save()`.
- The store methods require a consistent store on entry, as the database's own constraints guarantee.
- `staff_filter_api` is modelled through Views.FilterStaff, which is the same role filter. Its JSON rows are not modelled, including the `strftime` call that fails on a staff member without a joining date.
- The notification and event lists on the dashboard (`[:5]`) are not modelled, and neither are the counts on the statistics endpoint. `grades_view`, `grade_details` and `payment_history` are listings with no rule of their own and are not modelled.
- Views.GradeNameOf: returns the empty name for a grade key that does not exist. That case cannot arise in a consistent store, where every student's grade exists.
- Models.ParticipantCount counts every participant row, active or not, as the code does. It differs from a count of active members only.
- Views.OutstandingByGrade: the dictionary is modelled as a list of (name, amount) entries in insertion order.
