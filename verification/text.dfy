/** The string handling the application relies on: Python's int() on a
    decimal string, the `%04d` format, `str.split('-')[-1]`, `str.split()`
    and case-insensitive substring matching. */
module Text {
  import opened Common

  predicate IsDigit(c: char) { '0' <= c <= '9' }

  predicate AllDigits(s: string) { forall i :: 0 <= i < |s| ==> IsDigit(s[i]) }

  function DigitValue(c: char): (v: nat)
    requires IsDigit(c)
    ensures v < 10
  {
    (c as int) - ('0' as int)
  }

  function DigitChar(d: nat): (c: char)
    requires d < 10
    ensures IsDigit(c) && DigitValue(c) == d
  {
    (('0' as int) + d) as char
  }

  /** Value of a string of decimal digits, most significant digit first;
      leading zeros are allowed, as int() allows them. */
  function DigitsValue(s: string): nat
    requires AllDigits(s)
    decreases |s|
  {
    if s == [] then 0 else DigitsValue(s[..|s| - 1]) * 10 + DigitValue(s[|s| - 1])
  }

  /** The shortest decimal spelling of n: "0" for zero, no leading zero otherwise. */
  function Decimal(n: nat): (s: string)
    ensures |s| >= 1 && AllDigits(s)
    ensures DigitsValue(s) == n
    ensures n > 0 ==> s[0] != '0'
    decreases n
  {
    if n < 10 then [DigitChar(n)]
    else
      var s := Decimal(n / 10) + [DigitChar(n % 10)];
      assert s[..|s| - 1] == Decimal(n / 10);
      s
  }

  function Zeros(k: nat): (s: string)
    ensures |s| == k && AllDigits(s)
    ensures forall i :: 0 <= i < k ==> s[i] == '0'
  {
    seq(k, i => '0')
  }

  /** Python's `f"{n:04d}"` for width 4: the decimal spelling of n padded
      with zeros on the left to at least `width` characters, never cut. */
  function ZeroPad(n: nat, width: nat): (s: string)
    ensures AllDigits(s)
    ensures |s| == if |Decimal(n)| < width then width else |Decimal(n)|
    ensures DigitsValue(s) == n
  {
    var d := Decimal(n);
    var z := if |d| < width then Zeros(width - |d|) else [];
    LeadingZeros(z, d);
    z + d
  }

  lemma {:induction false} ZerosValue(z: string)
    requires AllDigits(z) && forall i :: 0 <= i < |z| ==> z[i] == '0'
    ensures DigitsValue(z) == 0
    decreases |z|
  {
    if z != [] {
      ZerosValue(z[..|z| - 1]);
    }
  }

  /** Zeros in front do not change the value of a digit string. */
  lemma {:induction false} LeadingZeros(z: string, d: string)
    requires AllDigits(z) && forall i :: 0 <= i < |z| ==> z[i] == '0'
    requires AllDigits(d)
    ensures AllDigits(z + d) && DigitsValue(z + d) == DigitsValue(d)
    decreases |d|
  {
    if d == [] {
      assert z + d == z;
      ZerosValue(z);
    } else {
      LeadingZeros(z, d[..|d| - 1]);
      assert (z + d)[..|z + d| - 1] == z + d[..|d| - 1];
    }
  }

  /** Python's int() applied to a string, narrowed to an optional sign
      followed by one or more ASCII digits; None where int() raises
      ValueError. */
  function ParseInt(s: string): (r: Option<int>)
    ensures s == [] ==> r == None
    ensures r.Some? && '-' !in s ==> r.value >= 0
    ensures r.Some? ==> IsDigit(s[|s| - 1])
  {
    if |s| > 0 && AllDigits(s) then Some(DigitsValue(s))
    else if |s| > 1 && (s[0] == '+' || s[0] == '-') && AllDigits(s[1..]) then
      (if s[0] == '-' then Some(0 - DigitsValue(s[1..])) else Some(DigitsValue(s[1..])))
    else None
  }

  /** int() of a non-empty string of digits is its decimal value, leading
      zeros included. */
  lemma ParseDigits(ds: string)
    requires ds != [] && AllDigits(ds)
    ensures ParseInt(ds) == Some(DigitsValue(ds))
  {
  }

  /** A leading plus sign keeps the value of the digits after it, a
      leading minus sign negates it. */
  lemma ParseSigned(ds: string)
    requires ds != [] && AllDigits(ds)
    ensures ParseInt("+" + ds) == Some(DigitsValue(ds))
    ensures ParseInt("-" + ds) == Some(0 - DigitsValue(ds))
  {
    var plus, minus := "+" + ds, "-" + ds;
    assert plus[1..] == ds && !IsDigit(plus[0]);
    assert minus[1..] == ds && !IsDigit(minus[0]);
  }

  /** Where int() raises ValueError, stated without reference to
      ParseInt: nothing to read, a lone sign, or a character that is
      neither a digit nor a leading sign. */
  predicate NotAnInt(s: string)
  {
    s == [] || s == "+" || s == "-"
    || exists i :: 0 <= i < |s| && !IsDigit(s[i]) && (i > 0 || (s[i] != '+' && s[i] != '-'))
  }

  /** ParseInt fails exactly on the strings int() rejects. */
  lemma ParseIntFails(s: string)
    ensures ParseInt(s).None? <==> NotAnInt(s)
  {
    if ParseInt(s).None? && s != [] && s != "+" && s != "-" {
      if IsDigit(s[0]) || (s[0] != '+' && s[0] != '-') {
        assert !AllDigits(s);
        var i :| 0 <= i < |s| && !IsDigit(s[i]);
        assert i > 0 || (s[i] != '+' && s[i] != '-');
      } else {
        assert |s| > 1;
        assert !AllDigits(s[1..]);
        var j :| 0 <= j < |s[1..]| && !IsDigit(s[1..][j]);
        assert !IsDigit(s[j + 1]);
      }
    }
    if NotAnInt(s) && s != [] && s != "+" && s != "-" {
      var i :| 0 <= i < |s| && !IsDigit(s[i]) && (i > 0 || (s[i] != '+' && s[i] != '-'));
      assert !AllDigits(s);
      if |s| > 1 && (s[0] == '+' || s[0] == '-') {
        assert !IsDigit(s[1..][i - 1]);
      }
    }
  }

  /** Formatting and parsing are inverse: int(f"{n:0{w}d}") == n. */
  lemma ParseZeroPad(n: nat, width: nat)
    ensures ParseInt(ZeroPad(n, width)) == Some(n)
  {
  }

  /** Python's `s.split(sep)[-1]`: the longest suffix of s free of sep,
      which is all of s when sep does not occur. */
  function AfterLast(s: string, sep: char): (r: string)
    ensures sep !in r
    ensures |r| <= |s| && r == s[|s| - |r|..]
    ensures sep in s ==> |r| < |s| && s[|s| - |r| - 1] == sep
    ensures sep !in s ==> r == s
    decreases |s|
  {
    if s == [] then []
    else if s[|s| - 1] == sep then []
    else
      var init := s[..|s| - 1];
      assert s == init + [s[|s| - 1]];
      AfterLast(init, sep) + [s[|s| - 1]]
  }

  /** The part after the last separator of `a + sep + b` is b, whatever a holds. */
  lemma AfterLastJoin(a: string, sep: char, b: string)
    requires sep !in b
    ensures AfterLast(a + [sep] + b, sep) == b
  {
    var s := a + [sep] + b;
    var r := AfterLast(s, sep);
    assert s[|a|] == sep;
    assert r == s[|s| - |b|..] == b;
  }

  /** Python's str.isspace() on the ASCII range: space, \t \n \v \f \r and
      the separators \x1c to \x1f. */
  predicate IsSpace(c: char)
  {
    c == ' ' || 9 <= c as int <= 13 || 28 <= c as int <= 31
  }

  predicate NoSpace(s: string) { forall i :: 0 <= i < |s| ==> !IsSpace(s[i]) }

  /** Length of the run of non-space characters that starts s. */
  function TokenLength(s: string): (n: nat)
    ensures n <= |s|
    ensures NoSpace(s[..n])
    ensures n < |s| ==> IsSpace(s[n])
    decreases |s|
  {
    if s == [] || IsSpace(s[0]) then 0
    else
      var n := 1 + TokenLength(s[1..]);
      assert s[..n] == [s[0]] + s[1..][..n - 1];
      n
  }

  /** Python's `s.split()` with no argument: the maximal runs of non-space
      characters, in order; leading, trailing and repeated spaces produce no
      empty words. */
  function Words(s: string): (ws: seq<string>)
    ensures forall k :: 0 <= k < |ws| ==> ws[k] != [] && NoSpace(ws[k])
    ensures s == [] ==> ws == []
    decreases |s|
  {
    if s == [] then []
    else if IsSpace(s[0]) then Words(s[1..])
    else
      var n := TokenLength(s);
      [s[..n]] + Words(s[n..])
  }

  lemma {:induction false} TokenLengthOf(a: string, b: string)
    requires NoSpace(a)
    requires b == [] || IsSpace(b[0])
    ensures TokenLength(a + b) == |a|
    decreases |a|
  {
    if a == [] {
      assert a + b == b;
    } else {
      assert (a + b)[1..] == a[1..] + b;
      TokenLengthOf(a[1..], b);
    }
  }

  /** The run of non-space characters starting a + r is the one starting a,
      unless a is all non-space and r goes on with more of them. */
  lemma {:induction false} TokenLengthExtend(a: string, r: string)
    requires TokenLength(a) < |a| || r == [] || IsSpace(r[0])
    ensures TokenLength(a + r) == TokenLength(a)
    decreases |a|
  {
    if a == [] {
      assert a + r == r;
    } else if !IsSpace(a[0]) {
      assert (a + r)[1..] == a[1..] + r;
      TokenLengthExtend(a[1..], r);
    }
  }

  /** split() cuts at every whitespace character: the words of a + [c] + b
      are those of a followed by those of b. With WordsOfWord and the empty
      string this fixes the words of every string. */
  lemma {:induction false} WordsSplitAtSpace(a: string, c: char, b: string)
    requires IsSpace(c)
    ensures Words(a + [c] + b) == Words(a) + Words(b)
    decreases |a|
  {
    if a == [] {
      var s := a + [c] + b;
      assert s[0] == c && s[1..] == b;
      WordsSkipSpace(s);
    } else if IsSpace(a[0]) {
      WordsSplitAtSpace(a[1..], c, b);
      SplitAfterSpace(a, c, b);
    } else {
      WordsSplitAtSpace(a[TokenLength(a)..], c, b);
      SplitAfterWord(a, c, b);
    }
  }

  /** The step of WordsSplitAtSpace past a leading whitespace character of a. */
  lemma {:induction false} SplitAfterSpace(a: string, c: char, b: string)
    requires a != [] && IsSpace(a[0])
    requires Words(a[1..] + [c] + b) == Words(a[1..]) + Words(b)
    ensures Words(a + [c] + b) == Words(a) + Words(b)
  {
    var s := a + [c] + b;
    assert s[0] == a[0] && s[1..] == a[1..] + [c] + b;
    WordsSkipSpace(s);
    WordsSkipSpace(a);
  }

  /** The step of WordsSplitAtSpace past the first word of a. */
  lemma {:induction false} SplitAfterWord(a: string, c: char, b: string)
    requires a != [] && !IsSpace(a[0]) && IsSpace(c)
    requires Words(a[TokenLength(a)..] + [c] + b) == Words(a[TokenLength(a)..]) + Words(b)
    ensures Words(a + [c] + b) == Words(a) + Words(b)
  {
    var n := TokenLength(a);
    var cb := [c] + b;
    WordsFirstRun(a, cb);
    AppendAssociative(a, [c], b);
    AppendAssociative(a[n..], [c], b);
    AppendAssociative([a[..n]], Words(a[n..]), Words(b));
    calc {
      Words(a + [c] + b);
      Words(a + cb);
      [a[..n]] + Words(a[n..] + cb);
      [a[..n]] + (Words(a[n..]) + Words(b));
      ([a[..n]] + Words(a[n..])) + Words(b);
      Words(a) + Words(b);
    }
  }

  /** Leading whitespace contributes no word. */
  lemma {:induction false} WordsSkipSpace(s: string)
    requires s != [] && IsSpace(s[0])
    ensures Words(s) == Words(s[1..])
  {
  }

  /** A string that starts with a word splits into that word and the
      words of the rest. */
  lemma {:induction false} WordsUnfold(s: string)
    requires s != [] && !IsSpace(s[0])
    ensures Words(s) == [s[..TokenLength(s)]] + Words(s[TokenLength(s)..])
  {
  }

  /** When a starts with a word, a + r starts with that same word as long as
      r begins with whitespace, and the rest is split on. */
  lemma {:induction false} WordsFirstRun(a: string, r: string)
    requires a != [] && !IsSpace(a[0])
    requires r != [] && IsSpace(r[0])
    ensures Words(a + r) == [a[..TokenLength(a)]] + Words(a[TokenLength(a)..] + r)
    ensures Words(a) == [a[..TokenLength(a)]] + Words(a[TokenLength(a)..])
  {
    var n := TokenLength(a);
    var s := a + r;
    assert s[0] == a[0];
    TokenLengthExtend(a, r);
    WordsUnfold(s);
    WordsUnfold(a);
    assert s[..n] == a[..n];
    assert s[n..] == a[n..] + r;
  }

  lemma WordsOfWord(a: string)
    requires a != [] && NoSpace(a)
    ensures Words(a) == [a]
  {
    TokenLengthOf(a, []);
    assert a + [] == a;
  }

  /** Splitting two space-free words joined by one space gives them back. */
  lemma WordsOfTwo(a: string, b: string)
    requires a != [] && NoSpace(a)
    requires b != [] && NoSpace(b)
    ensures Words(a + [' '] + b) == [a, b]
  {
    var s := a + [' '] + b;
    TokenLengthOf(a, [' '] + b);
    assert s == a + ([' '] + b);
    assert s[..|a|] == a;
    assert s[|a|..] == [' '] + b;
    assert ([' '] + b)[1..] == b;
    WordsOfWord(b);
  }

  predicate StartsWith(s: string, q: string)
  {
    |q| <= |s| && s[..|q|] == q
  }

  /** Substring test: Python's `q in s`. */
  predicate Contains(s: string, q: string)
    decreases |s|
  {
    StartsWith(s, q) || (s != [] && Contains(s[1..], q))
  }

  /** q occurs in s starting at position i. */
  predicate OccursAt(s: string, q: string, i: int)
  {
    0 <= i <= |s| - |q| && s[i..i + |q|] == q
  }

  /** Contains finds exactly the occurrences of q at some position of s. */
  lemma {:induction false} ContainsAt(s: string, q: string)
    ensures Contains(s, q) <==> exists i :: OccursAt(s, q, i)
    decreases |s|
  {
    if Contains(s, q) {
      if !StartsWith(s, q) {
        ContainsAt(s[1..], q);
        var i :| OccursAt(s[1..], q, i);
        assert s[1..][i..i + |q|] == s[i + 1..i + 1 + |q|];
        assert OccursAt(s, q, i + 1);
      } else {
        assert OccursAt(s, q, 0);
      }
    } else {
      forall i | OccursAt(s, q, i) ensures false {
        if i > 0 {
          ContainsAt(s[1..], q);
          assert s[1..][i - 1..i - 1 + |q|] == s[i..i + |q|];
          assert OccursAt(s[1..], q, i - 1);
        }
      }
    }
  }

  function LowerChar(c: char): char
  {
    if 'A' <= c <= 'Z' then (c as int + 32) as char else c
  }

  /** ASCII lower-casing, character by character. */
  function Lower(s: string): (r: string)
    ensures |r| == |s|
  {
    seq(|s|, i requires 0 <= i < |s| => LowerChar(s[i]))
  }

  /** Django's `icontains` lookup: q occurs in s when case is ignored. */
  predicate ContainsIgnoringCase(s: string, q: string)
  {
    Contains(Lower(s), Lower(q))
  }

  /** The empty query occurs in every string. */
  lemma ContainsEmpty(s: string)
    ensures ContainsIgnoringCase(s, "")
  {
    assert StartsWith(Lower(s), Lower(""));
  }

  /** Case-insensitive matching does not see the case of either side. */
  lemma LowerIdempotent(s: string)
    ensures Lower(Lower(s)) == Lower(s)
  {
  }

  /** An exact occurrence is also a case-insensitive one. */
  lemma ContainsImpliesIgnoringCase(s: string, q: string)
    requires Contains(s, q)
    ensures ContainsIgnoringCase(s, q)
  {
    ContainsAt(s, q);
    var i :| OccursAt(s, q, i);
    assert Lower(s)[i..i + |q|] == Lower(q);
    assert OccursAt(Lower(s), Lower(q), i);
    ContainsAt(Lower(s), Lower(q));
  }

  /** A string in which the first character of q never occurs does not
      contain q. */
  lemma {:induction false} MissingFirstChar(s: string, q: string)
    requires q != [] && forall j :: 0 <= j < |s| ==> s[j] != q[0]
    ensures !Contains(s, q)
    decreases |s|
  {
    if |q| <= |s| {
      assert s[..|q|][0] == s[0] != q[0];
    }
    if s != [] {
      assert forall j :: 0 <= j < |s[1..]| ==> s[1..][j] == s[j + 1];
      MissingFirstChar(s[1..], q);
    }
  }
}
