/** Small shared vocabulary: optional values, typed failures, and
    order-preserving filtering and summing over sequences. */
module Common {

  datatype Option<+T> = None | Some(value: T)

  /** The failures a store operation reports instead of changing anything.
      The application itself surfaces every one of them as a generic
      error message; here each kind is kept apart. */
  datatype Error =
    | NotFound            // a referenced primary key does not exist (a 404 or a foreign-key failure)
    | MalformedIdSuffix   // int() rejected the suffix of the last identifier
    | DuplicateGradeName  // Grade.name is unique
    | DuplicateStudentId  // Student.student_id is unique
    | DuplicateStaffId    // Staff.staff_id is unique
    | DuplicateParticipant // (activity, student) is unique for participant rows

  datatype Result<+T> = Ok(value: T) | Err(error: Error)

  /** The elements of s that satisfy p, in their original order
      (a Python list comprehension with an `if`). */
  function Filter<T>(s: seq<T>, p: T -> bool): (r: seq<T>)
    ensures |r| <= |s|
    decreases |s|
  {
    if s == [] then []
    else
      var init := Filter(s[..|s| - 1], p);
      assert s == s[..|s| - 1] + [s[|s| - 1]];
      if p(s[|s| - 1]) then init + [s[|s| - 1]] else init
  }

  /** a can be obtained from s by deleting elements: relative order is kept. */
  predicate Subsequence<T(==)>(a: seq<T>, s: seq<T>)
    decreases |s|
  {
    if a == [] then true
    else if s == [] then false
    else
      (a[|a| - 1] == s[|s| - 1] && Subsequence(a[..|a| - 1], s[..|s| - 1]))
      || Subsequence(a, s[..|s| - 1])
  }

  /** Sum of f over the elements of s (Python's sum() over a generator). */
  function Sum<T>(s: seq<T>, f: T -> int): int
    decreases |s|
  {
    if s == [] then 0 else Sum(s[..|s| - 1], f) + f(s[|s| - 1])
  }

  /** key never repeats along s. */
  ghost predicate DistinctBy<T, K>(s: seq<T>, key: T -> K)
  {
    forall i, j :: 0 <= i < j < |s| ==> key(s[i]) != key(s[j])
  }

  /** key strictly increases along s. */
  ghost predicate IncreasingBy<T>(s: seq<T>, key: T -> int)
  {
    forall i, j :: 0 <= i < j < |s| ==> key(s[i]) < key(s[j])
  }

  lemma {:induction false} FilterAppend<T>(s: seq<T>, x: T, p: T -> bool)
    ensures Filter(s + [x], p) == if p(x) then Filter(s, p) + [x] else Filter(s, p)
  {
    assert (s + [x])[..|s + [x]| - 1] == s;
  }

  lemma {:induction false} FilterIsSubsequence<T>(s: seq<T>, p: T -> bool)
    ensures Subsequence(Filter(s, p), s)
    decreases |s|
  {
    if s != [] {
      var init := s[..|s| - 1];
      FilterIsSubsequence(init, p);
      var r := Filter(s, p);
      if p(s[|s| - 1]) {
        assert r[..|r| - 1] == Filter(init, p);
      } else {
        SubsequenceDropLast(r, s);
      }
    }
  }

  /** Helper: when r == Filter(s[..|s|-1]) the second disjunct of Subsequence
      applies directly. */
  lemma SubsequenceDropLast<T>(a: seq<T>, s: seq<T>)
    requires s != [] && Subsequence(a, s[..|s| - 1])
    ensures Subsequence(a, s)
  {
  }

  lemma {:induction false} FilterAll<T>(s: seq<T>, p: T -> bool)
    requires forall x :: x in s ==> p(x)
    ensures Filter(s, p) == s
    decreases |s|
  {
    if s != [] {
      FilterAll(s[..|s| - 1], p);
      assert s == s[..|s| - 1] + [s[|s| - 1]];
    }
  }

  lemma {:induction false} FilterNone<T>(s: seq<T>, p: T -> bool)
    requires forall x :: x in s ==> !p(x)
    ensures Filter(s, p) == []
    decreases |s|
  {
    if s != [] {
      FilterNone(s[..|s| - 1], p);
    }
  }

  /** A predicate and its negation split s: every element lands in exactly
      one of the two results. */
  lemma {:induction false} FilterPartition<T>(s: seq<T>, p: T -> bool, q: T -> bool)
    requires forall x :: q(x) == !p(x)
    ensures multiset(Filter(s, p)) + multiset(Filter(s, q)) == multiset(s)
    ensures |Filter(s, p)| + |Filter(s, q)| == |s|
    decreases |s|
  {
    if s != [] {
      var init, x := s[..|s| - 1], s[|s| - 1];
      FilterPartition(init, p, q);
      assert s == init + [x];
      FilterAppend(init, x, p);
      FilterAppend(init, x, q);
      assert multiset(s) == multiset(init) + multiset{x};
      if p(x) {
        assert multiset(Filter(s, p)) == multiset(Filter(init, p)) + multiset{x};
        assert Filter(s, q) == Filter(init, q);
      } else {
        assert multiset(Filter(s, q)) == multiset(Filter(init, q)) + multiset{x};
        assert Filter(s, p) == Filter(init, p);
      }
    }
  }

  lemma {:induction false} FilterKeepsDistinct<T, K>(s: seq<T>, p: T -> bool, key: T -> K)
    requires DistinctBy(s, key)
    ensures DistinctBy(Filter(s, p), key)
    decreases |s|
  {
    if s != [] {
      var init := s[..|s| - 1];
      var last := s[|s| - 1];
      FilterKeepsDistinct(init, p, key);
      var r := Filter(s, p);
      if p(last) {
        var f := Filter(init, p);
        assert r == f + [last];
        forall i, j | 0 <= i < j < |r| ensures key(r[i]) != key(r[j]) {
          if j == |r| - 1 {
            FilterOnly(init, p, r[i]);
            var k :| 0 <= k < |init| && init[k] == r[i];
            assert s[k] == r[i] && s[|s| - 1] == last;
          } else {
            assert r[i] == f[i] && r[j] == f[j];
          }
        }
      }
    }
  }

  lemma {:induction false} FilterKeepsIncreasing<T>(s: seq<T>, p: T -> bool, key: T -> int)
    requires IncreasingBy(s, key)
    ensures IncreasingBy(Filter(s, p), key)
    decreases |s|
  {
    if s != [] {
      var init := s[..|s| - 1];
      var last := s[|s| - 1];
      FilterKeepsIncreasing(init, p, key);
      var r := Filter(s, p);
      if p(last) {
        var f := Filter(init, p);
        assert r == f + [last];
        forall i, j | 0 <= i < j < |r| ensures key(r[i]) < key(r[j]) {
          if j == |r| - 1 {
            FilterOnly(init, p, r[i]);
            var k :| 0 <= k < |init| && init[k] == r[i];
            assert s[k] == r[i] && s[|s| - 1] == last;
          } else {
            assert r[i] == f[i] && r[j] == f[j];
          }
        }
      }
    }
  }

  lemma {:induction false} SumNonNegative<T>(s: seq<T>, f: T -> int)
    requires forall x :: x in s ==> f(x) >= 0
    ensures Sum(s, f) >= 0
    decreases |s|
  {
    if s != [] {
      SumNonNegative(s[..|s| - 1], f);
    }
  }

  lemma {:induction false} SumAppend<T>(s: seq<T>, t: seq<T>, f: T -> int)
    ensures Sum(s + t, f) == Sum(s, f) + Sum(t, f)
    decreases |t|
  {
    if t == [] {
      assert s + t == s;
    } else {
      SumAppend(s, t[..|t| - 1], f);
      assert (s + t)[..|s + t| - 1] == s + t[..|t| - 1];
    }
  }

  lemma AppendAssociative<T>(x: seq<T>, y: seq<T>, z: seq<T>)
    ensures x + (y + z) == (x + y) + z
  {
  }

  lemma AppendKeepsIncreasing<T>(s: seq<T>, x: T, key: T -> int)
    requires IncreasingBy(s, key)
    requires forall i :: 0 <= i < |s| ==> key(s[i]) < key(x)
    ensures IncreasingBy(s + [x], key)
  {
  }

  lemma AppendKeepsDistinct<T, K>(s: seq<T>, x: T, key: T -> K)
    requires DistinctBy(s, key)
    requires forall i :: 0 <= i < |s| ==> key(s[i]) != key(x)
    ensures DistinctBy(s + [x], key)
  {
  }

  /** Every element of s that satisfies p is kept. */
  lemma {:induction false} FilterKeeps<T>(s: seq<T>, p: T -> bool, x: T)
    requires x in s && p(x)
    ensures x in Filter(s, p)
    decreases |s|
  {
    var init := s[..|s| - 1];
    assert s == init + [s[|s| - 1]];
    if x != s[|s| - 1] {
      FilterKeeps(init, p, x);
    }
  }

  /** Only elements of s that satisfy p are kept. */
  lemma {:induction false} FilterOnly<T>(s: seq<T>, p: T -> bool, x: T)
    requires x in Filter(s, p)
    ensures x in s && p(x)
    decreases |s|
  {
    var init := s[..|s| - 1];
    assert s == init + [s[|s| - 1]];
    if !(p(s[|s| - 1]) && x == s[|s| - 1]) {
      FilterOnly(init, p, x);
    }
  }

  /** Replacing one element changes the sum by the difference. */
  lemma {:induction false} SumUpdate<T>(s: seq<T>, i: int, x: T, f: T -> int)
    requires 0 <= i < |s|
    ensures Sum(s[i := x], f) == Sum(s, f) - f(s[i]) + f(x)
    decreases |s|
  {
    var t := s[i := x];
    if i < |s| - 1 {
      SumUpdate(s[..|s| - 1], i, x, f);
      assert t[..|t| - 1] == s[..|s| - 1][i := x];
    } else {
      assert t[..|t| - 1] == s[..|s| - 1];
    }
  }

  /** Summing a pointwise smaller function gives a smaller sum. */
  lemma {:induction false} SumMonotone<T>(s: seq<T>, f: T -> int, g: T -> int)
    requires forall i :: 0 <= i < |s| ==> f(s[i]) <= g(s[i])
    ensures Sum(s, f) <= Sum(s, g)
    decreases |s|
  {
    if s != [] {
      SumMonotone(s[..|s| - 1], f, g);
    }
  }

  /** Filtering by two predicates that agree on every element of s gives
      the same list. */
  lemma {:induction false} FilterAgree<T>(s: seq<T>, p: T -> bool, q: T -> bool)
    requires forall i :: 0 <= i < |s| ==> p(s[i]) == q(s[i])
    ensures Filter(s, p) == Filter(s, q)
    decreases |s|
  {
    if s != [] {
      FilterAgree(s[..|s| - 1], p, q);
    }
  }

  /** Filtering distributes over concatenation. */
  lemma {:induction false} FilterConcat<T>(a: seq<T>, b: seq<T>, p: T -> bool)
    ensures Filter(a + b, p) == Filter(a, p) + Filter(b, p)
    decreases |b|
  {
    if b == [] {
      assert a + b == a;
    } else {
      var init, x := b[..|b| - 1], b[|b| - 1];
      FilterConcat(a, init, p);
      assert a + b == (a + init) + [x];
      assert b == init + [x];
      FilterAppend(a + init, x, p);
      FilterAppend(init, x, p);
      if p(x) {
        calc {
          Filter(a + b, p);
          Filter(a + init, p) + [x];
          (Filter(a, p) + Filter(init, p)) + [x];
          Filter(a, p) + (Filter(init, p) + [x]);
          Filter(a, p) + Filter(b, p);
        }
      } else {
        calc {
          Filter(a + b, p);
          Filter(a + init, p);
          Filter(a, p) + Filter(init, p);
          Filter(a, p) + Filter(b, p);
        }
      }
    }
  }

  /** Filter keeps exactly the elements that satisfy p, stated over
      indices. */
  lemma FilterMembers<T>(s: seq<T>, p: T -> bool)
    ensures forall i :: 0 <= i < |Filter(s, p)| ==> Filter(s, p)[i] in s && p(Filter(s, p)[i])
    ensures forall i :: 0 <= i < |s| && p(s[i]) ==> s[i] in Filter(s, p)
  {
    var r := Filter(s, p);
    forall i | 0 <= i < |r| ensures r[i] in s && p(r[i]) {
      FilterOnly(s, p, r[i]);
    }
    forall i | 0 <= i < |s| && p(s[i]) ensures s[i] in r {
      FilterKeeps(s, p, s[i]);
    }
  }
}
