/** What the pages compute from the student list: the fee totals of the
    dashboard, the finance page and the statistics endpoint, the collection
    rate, the outstanding / paid / recent filters, the per-grade outstanding
    amounts, the search boxes and the staff role filter. Each list is taken
    in the order the query returns it. */
module Views {
  import opened Common
  import opened Text
  import opened Models
  import opened Schema

  // ---------------------------------------------------------------- fee totals

  /** The student still owes something: a positive balance. */
  predicate Owes(s: Student) { Balance(s) > 0 }

  /** The complement of Owes: nothing owed, or overpaid. */
  predicate Settled(s: Student) { Balance(s) <= 0 }

  function DueOf(s: Student): int { s.feesDue }
  function PaidOf(s: Student): int { s.feesPaid }

  /** `total_fees_due`. */
  function TotalDue(students: seq<Student>): int { Sum(students, DueOf) }

  /** `total_fees_paid`. */
  function TotalPaid(students: seq<Student>): int { Sum(students, PaidOf) }

  /** `outstanding_fees`: the balances of the students who owe something;
      credit balances are not netted against debts. */
  function OutstandingFees(students: seq<Student>): int
  {
    Sum(Filter(students, Owes), Balance)
  }

  /** The outstanding total is never negative and never below the net
      balance of the school; it is the net balance exactly when nobody has
      overpaid. */
  lemma {:induction false} OutstandingFeesBounds(students: seq<Student>)
    ensures OutstandingFees(students) >= 0
    ensures OutstandingFees(students) >= TotalDue(students) - TotalPaid(students)
    ensures (forall i :: 0 <= i < |students| ==> Balance(students[i]) >= 0) ==>
              OutstandingFees(students) == TotalDue(students) - TotalPaid(students)
    decreases |students|
  {
    if students != [] {
      var init, s := students[..|students| - 1], students[|students| - 1];
      OutstandingFeesBounds(init);
      assert students == init + [s];
      FilterAppend(init, s, Owes);
      var f := Filter(init, Owes);
      assert (f + [s])[..|f + [s]| - 1] == f;
      if forall i :: 0 <= i < |students| ==> Balance(students[i]) >= 0 {
        assert forall i :: 0 <= i < |init| ==> Balance(init[i]) >= 0 by {
          forall i | 0 <= i < |init| ensures Balance(init[i]) >= 0 {
            assert init[i] == students[i];
          }
        }
      }
    }
  }

  /** The outstanding total over a list is the sum of the totals over any
      split of it. */
  lemma OutstandingFeesAppend(a: seq<Student>, b: seq<Student>)
    ensures OutstandingFees(a + b) == OutstandingFees(a) + OutstandingFees(b)
  {
    FilterConcat(a, b, Owes);
    SumAppend(Filter(a, Owes), Filter(b, Owes), Balance);
  }

  /** `collection_percentage` / `collection_rate`: the share of the fees
      due that has been paid, in percent, and exactly 0 when nothing is due. */
  function CollectionPercentage(students: seq<Student>): (r: real)
    ensures TotalDue(students) > 0 ==> r * (TotalDue(students) as real) == (TotalPaid(students) as real) * 100.0
    ensures TotalDue(students) <= 0 ==> r == 0.0
  {
    var due := TotalDue(students);
    if due > 0 then (TotalPaid(students) as real) / (due as real) * 100.0 else 0.0
  }

  /** When every student has paid between nothing and what is due, the
      percentage lies between 0 and 100. */
  lemma CollectionPercentageInRange(students: seq<Student>)
    requires forall i :: 0 <= i < |students| ==> 0 <= students[i].feesPaid <= students[i].feesDue
    ensures 0.0 <= CollectionPercentage(students) <= 100.0
  {
    SumMonotone(students, PaidOf, DueOf);
    SumMonotone(students, (s: Student) => 0, PaidOf);
    ZeroSum(students);
    var due, paid := TotalDue(students), TotalPaid(students);
    if due > 0 {
      ShareInRange(paid as real, due as real);
    }
  }

  /** A part of a positive whole is between 0 and 100 percent of it. */
  lemma ShareInRange(part: real, whole: real)
    requires 0.0 <= part <= whole && whole > 0.0
    ensures 0.0 <= part / whole * 100.0 <= 100.0
  {
    var q := part / whole;
    assert q * whole == part;
    assert (1.0 - q) * whole == whole - part;
  }

  lemma {:induction false} ZeroSum(students: seq<Student>)
    ensures Sum(students, (s: Student) => 0) == 0
    decreases |students|
  {
    if students != [] {
      ZeroSum(students[..|students| - 1]);
    }
  }

  // ---------------------------------------------------------------- filters

  /** Number of rows the 'recent' filter shows. */
  const RecentCount: nat := 10

  /** Later enrolments first. */
  predicate NewestFirst(students: seq<Student>)
  {
    forall i, j :: 0 <= i < j < |students| ==> !Before(students[i].enrolledOn, students[j].enrolledOn)
  }

  /** Inserts s into a newest-first list after every row enrolled on or
      after s's date. */
  function InsertByEnrolment(s: Student, sorted: seq<Student>): (r: seq<Student>)
    requires NewestFirst(sorted)
    ensures NewestFirst(r)
    ensures multiset(r) == multiset(sorted) + multiset{s}
    decreases |sorted|
  {
    if sorted == [] then [s]
    else if Before(sorted[0].enrolledOn, s.enrolledOn) then
      var r := [s] + sorted;
      assert forall j :: 0 < j < |r| ==> r[j] == sorted[j - 1];
      r
    else
      var rest := InsertByEnrolment(s, sorted[1..]);
      var r := [sorted[0]] + rest;
      assert sorted == [sorted[0]] + sorted[1..];
      forall j | 0 < j < |r| ensures !Before(r[0].enrolledOn, r[j].enrolledOn) {
        assert r[j] in multiset(rest);
        if r[j] != s {
          assert r[j] in multiset(sorted[1..]);
          var k :| 0 <= k < |sorted[1..]| && sorted[1..][k] == r[j];
          assert sorted[k + 1] == r[j];
        }
      }
      r
  }

  /** `order_by('-enrolled_on')`: the students, newest enrolment first. */
  function SortByEnrolment(students: seq<Student>): (r: seq<Student>)
    ensures NewestFirst(r)
    ensures multiset(r) == multiset(students)
    decreases |students|
  {
    if students == [] then []
    else
      var init, s := students[..|students| - 1], students[|students| - 1];
      assert students == init + [s];
      InsertByEnrolment(s, SortByEnrolment(init))
  }

  /** `order_by('-enrolled_on')[:10]`: at most ten students, newest first,
      all of them from the list; all of them when there are ten or fewer. */
  function RecentlyEnrolled(students: seq<Student>): (r: seq<Student>)
    ensures |r| == if |students| < RecentCount then |students| else RecentCount
    ensures NewestFirst(r)
    ensures multiset(r) <= multiset(students)
  {
    var sorted := SortByEnrolment(students);
    assert |sorted| == |multiset(sorted)| == |multiset(students)| == |students|;
    var n := if |sorted| < RecentCount then |sorted| else RecentCount;
    assert sorted == sorted[..n] + sorted[n..];
    sorted[..n]
  }

  /** Nobody left out of the recent list was enrolled later than anybody
      shown. */
  lemma RecentAreNewest(students: seq<Student>, x: Student)
    requires x in multiset(students) - multiset(RecentlyEnrolled(students))
    ensures forall i :: 0 <= i < |RecentlyEnrolled(students)| ==>
              !Before(RecentlyEnrolled(students)[i].enrolledOn, x.enrolledOn)
  {
    var sorted := SortByEnrolment(students);
    var n := |RecentlyEnrolled(students)|;
    assert RecentlyEnrolled(students) == sorted[..n];
    SplitRemainder(sorted, n, x);
    NewestBeforeRest(sorted, n, x);
  }

  /** What a prefix leaves out of a list is in the rest of the list. */
  lemma SplitRemainder(sorted: seq<Student>, n: nat, x: Student)
    requires n <= |sorted| && x in multiset(sorted) - multiset(sorted[..n])
    ensures x in sorted[n..]
  {
    assert sorted == sorted[..n] + sorted[n..];
    assert multiset(sorted) == multiset(sorted[..n]) + multiset(sorted[n..]);
  }

  /** In a newest-first list every row of a prefix was enrolled no earlier
      than any row after it. */
  lemma NewestBeforeRest(sorted: seq<Student>, n: nat, x: Student)
    requires NewestFirst(sorted) && n <= |sorted| && x in sorted[n..]
    ensures forall i :: 0 <= i < n ==> !Before(sorted[..n][i].enrolledOn, x.enrolledOn)
  {
    var k :| 0 <= k < |sorted[n..]| && sorted[n..][k] == x;
    assert sorted[n + k] == x;
  }

  /** `filter_students`: 'outstanding' keeps the students who owe, 'paid'
      those who do not, 'recent' the ten latest enrolments; any other
      filter shows the list unchanged. */
  function FilterStudents(students: seq<Student>, filterType: string): (r: seq<Student>)
    ensures filterType == "outstanding" ==>
      (forall i :: 0 <= i < |r| ==> Owes(r[i])) && (forall i :: 0 <= i < |students| && Owes(students[i]) ==> students[i] in r)
    ensures filterType == "paid" ==>
      (forall i :: 0 <= i < |r| ==> Settled(r[i])) && (forall i :: 0 <= i < |students| && Settled(students[i]) ==> students[i] in r)
    ensures filterType == "recent" ==> |r| <= RecentCount && NewestFirst(r)
    ensures filterType == "recent" ==> r == RecentlyEnrolled(students)
    ensures filterType !in {"outstanding", "paid", "recent"} ==> r == students
    ensures multiset(r) <= multiset(students)
  {
    if filterType == "outstanding" || filterType == "paid" then
      var r := Filter(students, if filterType == "outstanding" then Owes else Settled);
      FilterPartition(students, Owes, Settled);
      FilterMembers(students, if filterType == "outstanding" then Owes else Settled);
      r
    else if filterType == "recent" then RecentlyEnrolled(students)
    else students
  }

  /** The 'outstanding' and 'paid' lists split the student list: together
      they hold every student exactly as often as the list does, and each
      keeps the list's order. */
  lemma OutstandingPaidPartition(students: seq<Student>)
    ensures multiset(FilterStudents(students, "outstanding")) + multiset(FilterStudents(students, "paid"))
            == multiset(students)
    ensures |FilterStudents(students, "outstanding")| + |FilterStudents(students, "paid")| == |students|
    ensures Subsequence(FilterStudents(students, "outstanding"), students)
    ensures Subsequence(FilterStudents(students, "paid"), students)
  {
    FilterPartition(students, Owes, Settled);
    FilterIsSubsequence(students, Owes);
    FilterIsSubsequence(students, Settled);
  }

  /** `students_filter_api` selects like `filter_students` except that it
      knows no 'recent' filter and lists everybody for it. */
  function ApiFilterStudents(students: seq<Student>, filterType: string): (r: seq<Student>)
    ensures filterType == "recent" ==> r == students
    ensures filterType != "recent" ==> r == FilterStudents(students, filterType)
  {
    if filterType == "recent" then students else FilterStudents(students, filterType)
  }

  // ---------------------------------------------------------------- outstanding by grade

  /** The name of the grade with primary key pk; "" when there is none
      (a consistent store always has one, see GradeNameOfFinds). */
  function GradeNameOf(grades: seq<Grade>, pk: int): string
    decreases |grades|
  {
    if grades == [] then ""
    else if grades[0].pk == pk then grades[0].name
    else GradeNameOf(grades[1..], pk)
  }

  lemma {:induction false} GradeNameOfFinds(grades: seq<Grade>, g: Grade)
    requires g in grades && IncreasingBy(grades, GradeKey)
    ensures GradeNameOf(grades, g.pk) == g.name
    decreases |grades|
  {
    if grades[0] != g {
      assert g in grades[1..];
      var k :| 0 <= k < |grades| && grades[k] == g;
      assert GradeKey(grades[0]) < GradeKey(grades[k]);
      GradeNameOfFinds(grades[1..], g);
    }
  }

  /** A dictionary entry; a dictionary is the list of its entries in
      insertion order, as a Python dict keeps them. */
  type Entry = (string, int)

  function EntryValue(e: Entry): int { e.1 }

  function Keys(m: seq<Entry>): set<string> { set e | e in m :: e.0 }

  predicate DistinctKeys(m: seq<Entry>)
  {
    forall i, j :: 0 <= i < j < |m| ==> m[i].0 != m[j].0
  }

  /** Position of key k in m, or -1 when k is not a key (`k in d`). */
  function KeyIndex(m: seq<Entry>, k: string): (i: int)
    ensures -1 <= i < |m|
    ensures i >= 0 ==> m[i].0 == k
    ensures i == -1 <==> k !in Keys(m)
    decreases |m|
  {
    if m == [] then -1
    else if m[|m| - 1].0 == k then |m| - 1
    else
      var i := KeyIndex(m[..|m| - 1], k);
      assert m == m[..|m| - 1] + [m[|m| - 1]];
      i
  }

  /** `d[k] = d.get(k, 0) + v`: adds v to the entry of k, creating it at
      the end when k is new. */
  function AddTo(m: seq<Entry>, k: string, v: int): (r: seq<Entry>)
    requires DistinctKeys(m)
    ensures DistinctKeys(r)
    ensures Keys(r) == Keys(m) + {k}
    ensures Sum(r, EntryValue) == Sum(m, EntryValue) + v
    ensures |m| <= |r|
    ensures forall i :: 0 <= i < |m| && m[i].0 != k ==> r[i] == m[i]
    ensures k in Keys(m) ==> |r| == |m| && r[KeyIndex(m, k)] == (k, m[KeyIndex(m, k)].1 + v)
    ensures k !in Keys(m) ==> r == m + [(k, v)]
  {
    var i := KeyIndex(m, k);
    if i < 0 then
      assert (m + [(k, v)])[..|m|] == m;
      m + [(k, v)]
    else
      SumUpdate(m, i, (k, m[i].1 + v), EntryValue);
      UpdateKeepsKeys(m, i, (k, m[i].1 + v));
      m[i := (k, m[i].1 + v)]
  }

  /** Replacing an entry by one with the same key keeps the key set. */
  lemma UpdateKeepsKeys(m: seq<Entry>, i: int, e: Entry)
    requires 0 <= i < |m| && e.0 == m[i].0
    ensures Keys(m[i := e]) == Keys(m)
  {
    var r := m[i := e];
    forall key | key in Keys(m) ensures key in Keys(r) {
      var d :| d in m && d.0 == key;
      var j :| 0 <= j < |m| && m[j] == d;
      assert r[j].0 == key;
    }
  }

  /** Students who owe and belong to the grade named k. */
  function OwingIn(grades: seq<Grade>, k: string): Student -> bool
  {
    (s: Student) => Owes(s) && GradeNameOf(grades, s.grade) == k
  }

  /** The finance page's `grade_stats`, entry by entry in the order the
      loop creates them: one entry per grade name with an owing student,
      holding the sum of the balances owed in that grade. */
  function OutstandingByGrade(students: seq<Student>, grades: seq<Grade>): (m: seq<Entry>)
    ensures DistinctKeys(m)
    decreases |students|
  {
    if students == [] then []
    else
      var m := OutstandingByGrade(students[..|students| - 1], grades);
      var s := students[|students| - 1];
      if Owes(s) then AddTo(m, GradeNameOf(grades, s.grade), Balance(s)) else m
  }

  /** `finance_view`'s loop: for each owing student, the grade's entry is
      created at 0 if missing, then increased by the balance. */
  method GradeStats(students: seq<Student>, grades: seq<Grade>) returns (stats: seq<Entry>)
    ensures stats == OutstandingByGrade(students, grades)
  {
    stats := [];
    var i := 0;
    while i < |students|
      invariant 0 <= i <= |students|
      invariant stats == OutstandingByGrade(students[..i], grades)
    {
      var s := students[i];
      assert students[..i + 1][..i] == students[..i];
      if Balance(s) > 0 {
        var name := GradeNameOf(grades, s.grade);
        var j := KeyIndex(stats, name);
        if j < 0 {
          stats := stats + [(name, 0)];
          j := |stats| - 1;
        }
        stats := stats[j := (name, stats[j].1 + Balance(s))];
      }
      i := i + 1;
    }
    assert students[..|students|] == students;
  }

  /** The grade names of the students who owe. */
  function OwingGradeNames(students: seq<Student>, grades: seq<Grade>): set<string>
  {
    set s | s in students && Owes(s) :: GradeNameOf(grades, s.grade)
  }

  lemma OwingGradeNamesSnoc(init: seq<Student>, s: Student, grades: seq<Grade>)
    ensures OwingGradeNames(init + [s], grades)
            == OwingGradeNames(init, grades) + (if Owes(s) then {GradeNameOf(grades, s.grade)} else {})
  {
    var a := OwingGradeNames(init + [s], grades);
    var b := OwingGradeNames(init, grades) + (if Owes(s) then {GradeNameOf(grades, s.grade)} else {});
    forall k | k in a ensures k in b {
      var x :| x in init + [s] && Owes(x) && GradeNameOf(grades, x.grade) == k;
      if x != s {
        assert x in init;
      }
    }
    forall k | k in b ensures k in a {
      if k in OwingGradeNames(init, grades) {
        var x :| x in init && Owes(x) && GradeNameOf(grades, x.grade) == k;
        assert x in init + [s];
      } else {
        assert s in init + [s];
      }
    }
  }

  lemma OutstandingFeesSnoc(init: seq<Student>, s: Student)
    ensures OutstandingFees(init + [s]) == OutstandingFees(init) + (if Owes(s) then Balance(s) else 0)
  {
    FilterAppend(init, s, Owes);
    var f := Filter(init, Owes);
    assert (f + [s])[..|f + [s]| - 1] == f;
  }

  /** There is an entry exactly for each grade name with an owing student. */
  lemma {:induction false} OutstandingByGradeKeys(students: seq<Student>, grades: seq<Grade>)
    ensures Keys(OutstandingByGrade(students, grades)) == OwingGradeNames(students, grades)
    decreases |students|
  {
    if students != [] {
      var init, s := students[..|students| - 1], students[|students| - 1];
      OutstandingByGradeKeys(init, grades);
      assert students == init + [s];
      OwingGradeNamesSnoc(init, s, grades);
    }
  }

  /** Every entry is positive. */
  lemma {:induction false} OutstandingByGradePositive(students: seq<Student>, grades: seq<Grade>)
    ensures forall i :: 0 <= i < |OutstandingByGrade(students, grades)| ==> OutstandingByGrade(students, grades)[i].1 > 0
    decreases |students|
  {
    if students != [] {
      var init, s := students[..|students| - 1], students[|students| - 1];
      OutstandingByGradePositive(init, grades);
      var m := OutstandingByGrade(init, grades);
      if Owes(s) {
        var k := GradeNameOf(grades, s.grade);
        var r := AddTo(m, k, Balance(s));
        forall i | 0 <= i < |r| ensures r[i].1 > 0 {
          if k in Keys(m) && i == KeyIndex(m, k) {
            assert r[i] == (k, m[i].1 + Balance(s)) && m[i].1 > 0;
          } else if i < |m| {
            assert m[i] in m && m[i].0 in Keys(m);
            assert m[i].0 != k;
            assert r[i] == m[i];
          } else {
            assert r == m + [(k, Balance(s))];
            assert r[i] == (k, Balance(s));
          }
        }
      }
    }
  }

  /** The entries add up to the outstanding total. */
  lemma {:induction false} OutstandingByGradeTotal(students: seq<Student>, grades: seq<Grade>)
    ensures Sum(OutstandingByGrade(students, grades), EntryValue) == OutstandingFees(students)
    decreases |students|
  {
    if students != [] {
      var init, s := students[..|students| - 1], students[|students| - 1];
      OutstandingByGradeTotal(init, grades);
      assert students == init + [s];
      OutstandingFeesSnoc(init, s);
    }
  }

  /** Each entry holds exactly the outstanding total of its grade's
      students. */
  lemma {:induction false} OutstandingByGradeValues(students: seq<Student>, grades: seq<Grade>)
    ensures var m := OutstandingByGrade(students, grades);
      forall i :: 0 <= i < |m| ==> m[i].1 == Sum(Filter(students, OwingIn(grades, m[i].0)), Balance)
    decreases |students|
  {
    if students != [] {
      var init, s := students[..|students| - 1], students[|students| - 1];
      OutstandingByGradeValues(init, grades);
      OutstandingByGradeKeys(init, grades);
      assert students == init + [s];
      var m := OutstandingByGrade(init, grades);
      var r := OutstandingByGrade(students, grades);
      forall i | 0 <= i < |r| ensures r[i].1 == Sum(Filter(init + [s], OwingIn(grades, r[i].0)), Balance) {
        ValuesStep(init, s, grades, m, i);
      }
    }
  }

  lemma SumFilterSnoc(init: seq<Student>, s: Student, p: Student -> bool)
    ensures Sum(Filter(init + [s], p), Balance) == Sum(Filter(init, p), Balance) + (if p(s) then Balance(s) else 0)
  {
    FilterAppend(init, s, p);
    var f := Filter(init, p);
    assert (f + [s])[..|f + [s]| - 1] == f;
  }

  lemma ValuesStep(init: seq<Student>, s: Student, grades: seq<Grade>, m: seq<Entry>, i: int)
    requires DistinctKeys(m)
    requires forall j :: 0 <= j < |m| ==> m[j].1 == Sum(Filter(init, OwingIn(grades, m[j].0)), Balance)
    requires Keys(m) == OwingGradeNames(init, grades)
    requires var r := if Owes(s) then AddTo(m, GradeNameOf(grades, s.grade), Balance(s)) else m;
      0 <= i < |r|
    ensures var r := if Owes(s) then AddTo(m, GradeNameOf(grades, s.grade), Balance(s)) else m;
      r[i].1 == Sum(Filter(init + [s], OwingIn(grades, r[i].0)), Balance)
  {
    var r := if Owes(s) then AddTo(m, GradeNameOf(grades, s.grade), Balance(s)) else m;
    if !Owes(s) {
      ValueKept(init, s, grades, m[i].0, m[i].1);
    } else {
      var k0 := GradeNameOf(grades, s.grade);
      if r[i].0 != k0 {
        assert i < |m| && r[i] == m[i];
        ValueKept(init, s, grades, m[i].0, m[i].1);
      } else if k0 in Keys(m) {
        var j := KeyIndex(m, k0);
        assert i == j;
        ValueAdded(init, s, grades, k0, m[j].1);
      } else {
        assert i == |m| && r[i] == (k0, Balance(s));
        var p := OwingIn(grades, k0);
        assert forall x :: x in init && p(x) ==> k0 in OwingGradeNames(init, grades);
        FilterNone(init, p);
        ValueAdded(init, s, grades, k0, 0);
      }
    }
  }

  /** A student outside a grade's owing group leaves its total as it was. */
  lemma ValueKept(init: seq<Student>, s: Student, grades: seq<Grade>, k: string, v: int)
    requires v == Sum(Filter(init, OwingIn(grades, k)), Balance) && !OwingIn(grades, k)(s)
    ensures v == Sum(Filter(init + [s], OwingIn(grades, k)), Balance)
  {
    SumFilterSnoc(init, s, OwingIn(grades, k));
  }

  /** A student in a grade's owing group adds the balance to its total. */
  lemma ValueAdded(init: seq<Student>, s: Student, grades: seq<Grade>, k: string, v: int)
    requires v == Sum(Filter(init, OwingIn(grades, k)), Balance) && OwingIn(grades, k)(s)
    ensures v + Balance(s) == Sum(Filter(init + [s], OwingIn(grades, k)), Balance)
  {
    SumFilterSnoc(init, s, OwingIn(grades, k));
  }

  // ---------------------------------------------------------------- the students endpoint

  /** The endpoint's `status`: only two values, with no 'overdue'. */
  function ApiStatus(s: Student): (r: string)
    ensures r == "outstanding" <==> Owes(s)
    ensures r == "paid" <==> Settled(s)
  {
    if Balance(s) > 0 then "outstanding" else "paid"
  }

  /** The endpoint's status is the payment status with 'overdue' folded
      into 'outstanding'. */
  lemma ApiStatusFoldsOverdue(s: Student)
    ensures ApiStatus(s) == "paid" <==> PaymentStatusOf(s) == Paid
    ensures ApiStatus(s) == "outstanding" <==> PaymentStatusOf(s) != Paid
    ensures ApiStatus(s) != "overdue"
  {
  }

  /** One row of the JSON the students endpoint returns. */
  datatype StudentRow = StudentRow(id: int, name: string, grade: string, balance: int, status: string)

  /** `students_filter_api`: a row per selected student, in order. */
  function StudentsApi(students: seq<Student>, grades: seq<Grade>, filterType: string): (rows: seq<StudentRow>)
    ensures |rows| == |ApiFilterStudents(students, filterType)|
    ensures forall i :: 0 <= i < |rows| ==>
      var s := ApiFilterStudents(students, filterType)[i];
      rows[i].id == s.pk && rows[i].name == s.name && rows[i].grade == GradeNameOf(grades, s.grade)
      && rows[i].balance == Balance(s)
    ensures forall i :: 0 <= i < |rows| ==> (rows[i].status == "outstanding" <==> rows[i].balance > 0)
    ensures forall i :: 0 <= i < |rows| ==> (rows[i].status == "paid" <==> rows[i].balance <= 0)
    ensures filterType == "outstanding" ==> forall i :: 0 <= i < |rows| ==> rows[i].status == "outstanding"
    ensures filterType == "paid" ==> forall i :: 0 <= i < |rows| ==> rows[i].status == "paid"
  {
    var selected := ApiFilterStudents(students, filterType);
    seq(|selected|, i requires 0 <= i < |selected| =>
      var s := selected[i];
      StudentRow(s.pk, s.name, GradeNameOf(grades, s.grade), Balance(s), ApiStatus(s)))
  }

  // ---------------------------------------------------------------- search

  /** `Q(name__icontains=q) | Q(grade__name__icontains=q)`. */
  predicate StudentMatches(grades: seq<Grade>, query: string, s: Student)
  {
    ContainsIgnoringCase(s.name, query) || ContainsIgnoringCase(GradeNameOf(grades, s.grade), query)
  }

  function StudentMatcher(grades: seq<Grade>, query: string): Student -> bool
  {
    (s: Student) => StudentMatches(grades, query, s)
  }

  /** `search_students`: an empty query lists everybody; otherwise the
      students whose name or grade name contains the query, ignoring case,
      in list order. */
  function SearchStudents(students: seq<Student>, grades: seq<Grade>, query: string): (r: seq<Student>)
    ensures query == "" ==> r == students
    ensures query != "" ==> forall i :: 0 <= i < |r| ==> StudentMatches(grades, query, r[i])
    ensures query != "" ==> forall i :: 0 <= i < |students| && StudentMatches(grades, query, students[i]) ==> students[i] in r
    ensures Subsequence(r, students)
  {
    if query == "" then
      FilterIsSubsequence(students, (s: Student) => true);
      FilterAll(students, (s: Student) => true);
      students
    else
      FilterIsSubsequence(students, StudentMatcher(grades, query));
      FilterMembers(students, StudentMatcher(grades, query));
      Filter(students, StudentMatcher(grades, query))
  }

  /** The empty-query shortcut changes nothing: the empty string occurs in
      every name, so filtering would keep everybody too. */
  lemma EmptyQueryMatchesAll(students: seq<Student>, grades: seq<Grade>)
    ensures Filter(students, StudentMatcher(grades, "")) == students
  {
    forall s | s in students ensures StudentMatcher(grades, "")(s) {
      ContainsEmpty(s.name);
    }
    FilterAll(students, StudentMatcher(grades, ""));
  }

  /** Searching ignores the case of the query: a query and its lower-case
      spelling find the same students. */
  lemma SearchIgnoresQueryCase(students: seq<Student>, grades: seq<Grade>, query: string)
    ensures SearchStudents(students, grades, Lower(query)) == SearchStudents(students, grades, query)
  {
    LowerIdempotent(query);
    if query != "" {
      FilterAgree(students, StudentMatcher(grades, Lower(query)), StudentMatcher(grades, query));
    }
  }

  /** `Q(name__icontains=q) | Q(role__icontains=q)`. */
  predicate StaffMatches(query: string, m: Staff)
  {
    ContainsIgnoringCase(m.name, query) || ContainsIgnoringCase(m.role, query)
  }

  function StaffMatcher(query: string): Staff -> bool
  {
    (m: Staff) => StaffMatches(query, m)
  }

  /** `search_staff`: as SearchStudents, over name and role. */
  function SearchStaff(staff: seq<Staff>, query: string): (r: seq<Staff>)
    ensures query == "" ==> r == staff
    ensures query != "" ==> forall i :: 0 <= i < |r| ==> StaffMatches(query, r[i])
    ensures query != "" ==> forall i :: 0 <= i < |staff| && StaffMatches(query, staff[i]) ==> staff[i] in r
    ensures Subsequence(r, staff)
  {
    if query == "" then
      FilterIsSubsequence(staff, (m: Staff) => true);
      FilterAll(staff, (m: Staff) => true);
      staff
    else
      FilterIsSubsequence(staff, StaffMatcher(query));
      FilterMembers(staff, StaffMatcher(query));
      Filter(staff, StaffMatcher(query))
  }

  // ---------------------------------------------------------------- staff filter

  /** The role each known staff filter selects. */
  function RoleFilter(filterType: string): Option<string>
  {
    if filterType == "teachers" then Some("Teacher")
    else if filterType == "admin" then Some("Admin")
    else if filterType == "support" then Some("Support")
    else None
  }

  function HasRole(role: string): Staff -> bool
  {
    (m: Staff) => m.role == role
  }

  /** `filter_staff`: 'teachers', 'admin' and 'support' keep exactly the
      staff whose role is the matching choice, in order; any other filter
      shows everybody. */
  function FilterStaff(staff: seq<Staff>, filterType: string): (r: seq<Staff>)
    ensures filterType !in {"teachers", "admin", "support"} ==> r == staff
    ensures RoleFilter(filterType).Some? ==>
      var role := RoleFilter(filterType).value;
      && (forall i :: 0 <= i < |r| ==> r[i].role == role)
      && (forall i :: 0 <= i < |staff| && staff[i].role == role ==> staff[i] in r)
    ensures Subsequence(r, staff)
  {
    match RoleFilter(filterType)
    case None =>
      FilterIsSubsequence(staff, (m: Staff) => true);
      FilterAll(staff, (m: Staff) => true);
      staff
    case Some(role) =>
      FilterIsSubsequence(staff, HasRole(role));
      FilterMembers(staff, HasRole(role));
      Filter(staff, HasRole(role))
  }

  /** The role filters pick disjoint groups: a teacher is listed under
      neither 'admin' nor 'support'. */
  lemma StaffFiltersDisjoint(staff: seq<Staff>, m: Staff)
    requires m in FilterStaff(staff, "teachers")
    ensures m !in FilterStaff(staff, "admin") && m !in FilterStaff(staff, "support")
  {
    FilterOnly(staff, HasRole("Teacher"), m);
    if m in FilterStaff(staff, "admin") {
      FilterOnly(staff, HasRole("Admin"), m);
    }
    if m in FilterStaff(staff, "support") {
      FilterOnly(staff, HasRole("Support"), m);
    }
  }

  /** Staff with any other role (Principal, Vice Principal, Counselor)
      appear under none of the three filters. */
  lemma OtherRolesUnfiltered(staff: seq<Staff>, m: Staff, filterType: string)
    requires m.role !in {"Teacher", "Admin", "Support"}
    requires filterType in {"teachers", "admin", "support"}
    ensures m !in FilterStaff(staff, filterType)
  {
    if m in FilterStaff(staff, filterType) {
      FilterOnly(staff, HasRole(RoleFilter(filterType).value), m);
    }
  }
}
