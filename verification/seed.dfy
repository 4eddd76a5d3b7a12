/** The parts of the database seeder that are not random: the grade number
    read back from a grade name, the age range a seeded student's date of
    birth is drawn from, and the ranges of the seeded fee amounts. The
    random draws themselves are parameters. */
module Seed {
  import opened Common
  import opened Text
  import opened Models
  import opened Views

  /** `extract_grade_number`: a name containing "Grade" gives the integer
      value of its second whitespace-separated word, a name containing only
      "Kindergarten" gives 0, and any other name gives None. A missing
      second word (IndexError) or one that is not an integer (ValueError)
      also gives None. */
  function ExtractGradeNumber(name: string): (r: Option<int>)
    ensures !Contains(name, "Grade") ==> (r.Some? <==> Contains(name, "Kindergarten"))
    ensures !Contains(name, "Grade") && r.Some? ==> r.value == 0
    ensures Contains(name, "Grade") ==>
      (r.Some? <==> |Words(name)| >= 2 && ParseInt(Words(name)[1]).Some?)
    ensures Contains(name, "Grade") && r.Some? ==> r == ParseInt(Words(name)[1])
  {
    if Contains(name, "Grade") then
      var words := Words(name);
      if |words| < 2 then None else ParseInt(words[1])
    else if Contains(name, "Kindergarten") then Some(0)
    else None
  }

  lemma StartsContains(s: string, q: string)
    requires StartsWith(s, q)
    ensures Contains(s, q)
  {
  }

  /** The seeder's own names read back: "Grade n" gives n. */
  lemma GradeNameNumber(n: nat)
    ensures ExtractGradeNumber("Grade " + Decimal(n)) == Some(n)
  {
    var name := "Grade " + Decimal(n);
    assert name[..5] == "Grade";
    StartsContains(name, "Grade");
    var d := Decimal(n);
    assert NoSpace(d) by {
      forall i | 0 <= i < |d| ensures !IsSpace(d[i]) {
        assert IsDigit(d[i]);
      }
    }
    assert name == "Grade" + [' '] + d;
    WordsOfTwo("Grade", d);
    assert ParseInt(d) == Some(n);
  }

  /** "Kindergarten" does not contain "Grade" and gives 0. */
  lemma KindergartenIsZero()
    ensures ExtractGradeNumber("Kindergarten") == Some(0)
  {
    var name := "Kindergarten";
    assert forall j :: 0 <= j < |name| ==> name[j] != 'G';
    MissingFirstChar(name, "Grade");
    assert StartsWith(name, "Kindergarten");
    StartsContains(name, "Kindergarten");
  }

  /** A name containing "Grade" whose second word is not a number gives
      None even when it also contains "Kindergarten": the "Grade" test
      comes first. */
  lemma GradeTestFirst()
    ensures ExtractGradeNumber("Grade Kindergarten") == None
  {
    var name := "Grade Kindergarten";
    assert name[..5] == "Grade";
    StartsContains(name, "Grade");
    assert name == "Grade" + [' '] + "Kindergarten";
    WordsOfTwo("Grade", "Kindergarten");
  }

  /** "Grade" alone has no second word: None instead of an IndexError. */
  lemma GradeWithoutNumber()
    ensures ExtractGradeNumber("Grade") == None
  {
    StartsContains("Grade", "Grade");
    WordsOfWord("Grade");
  }

  /** Python's truth value of the extracted grade number: None and 0 are
      false. */
  predicate Truthy(n: Option<int>)
  {
    n.Some? && n.value != 0
  }

  /** The minimum and maximum age handed to the date-of-birth generator:
      one year either side of n + 5 for a true grade number n, and 5 to 18
      otherwise, which includes Kindergarten's 0. */
  function SeedAgeRange(gradeNumber: Option<int>): (r: (int, int))
    ensures Truthy(gradeNumber) ==> r.0 == gradeNumber.value + 4 && r.1 == gradeNumber.value + 6
    ensures !Truthy(gradeNumber) ==> r == (5, 18)
    ensures r.0 < r.1
  {
    if Truthy(gradeNumber) then
      var age := gradeNumber.value + 5;
      (age - 1, age + 1)
    else (5, 18)
  }

  /** Kindergarten's grade number 0 takes the default branch rather than
      the ages 4 to 6 that n + 5 would give. */
  lemma KindergartenTakesDefault()
    ensures SeedAgeRange(ExtractGradeNumber("Kindergarten")) == (5, 18)
    ensures SeedAgeRange(ExtractGradeNumber("Kindergarten")) != (0 + 4, 0 + 6)
  {
    KindergartenIsZero();
  }

  /** For the seeded grades 1 to 12 the range lies inside the default one. */
  lemma GradeAgeRangesWithinDefault(n: nat)
    requires 1 <= n <= 12
    ensures 5 <= SeedAgeRange(ExtractGradeNumber("Grade " + Decimal(n))).0
    ensures SeedAgeRange(ExtractGradeNumber("Grade " + Decimal(n))).1 <= 18
  {
    GradeNameNumber(n);
  }

  /** The fee amounts of a seeded student in cents, from the two whole
      amounts drawn: `randint(500, 2000)` for the fees due and
      `randint(0, due)` for the fees paid. */
  function SeedFees(dueDraw: int, paidDraw: int): (r: (int, int))
    requires 500 <= dueDraw <= 2000 && 0 <= paidDraw <= dueDraw
    ensures 50000 <= r.0 <= 200000
    ensures 0 <= r.1 <= r.0
    ensures r.0 % 100 == 0 && r.1 % 100 == 0
  {
    (dueDraw * 100, paidDraw * 100)
  }

  predicate SeededFees(s: Student)
  {
    50000 <= s.feesDue <= 200000 && 0 <= s.feesPaid <= s.feesDue
  }

  /** Over seeded students nobody is in credit, so the outstanding total is
      the net balance, the collection rate lies between 0 and 100, and any
      non-empty list has fees due. */
  lemma SeededTotals(students: seq<Student>)
    requires forall i :: 0 <= i < |students| ==> SeededFees(students[i])
    ensures OutstandingFees(students) == TotalDue(students) - TotalPaid(students)
    ensures 0.0 <= CollectionPercentage(students) <= 100.0
    ensures |students| > 0 ==> TotalDue(students) > 0
  {
    OutstandingFeesBounds(students);
    CollectionPercentageInRange(students);
    if |students| > 0 {
      var init := students[..|students| - 1];
      SumMonotone(init, (s: Student) => 0, DueOf);
      ZeroSum(init);
      assert forall i :: 0 <= i < |init| ==> init[i] == students[i];
    }
  }
}
