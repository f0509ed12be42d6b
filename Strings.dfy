/** Python string operations the gateway relies on: the code-point
    lexicographic order used by `sorted()` on node names, `sorted()` itself,
    the substring test `sub in s`, `str()` of a non-negative integer and
    `int()` of a decimal string. */
module Strings {
  import opened Basics

  /** Python's `a <= b` on `str`: code-point lexicographic order. */
  predicate LexLe(a: string, b: string)
    decreases |a|
  {
    |a| == 0 || (|b| > 0 && (a[0] < b[0] || (a[0] == b[0] && LexLe(a[1..], b[1..]))))
  }

  lemma {:induction false} LexLeTotal(a: string, b: string)
    ensures LexLe(a, b) || LexLe(b, a)
    decreases |a|
  {
    if |a| > 0 && |b| > 0 && a[0] == b[0] {
      LexLeTotal(a[1..], b[1..]);
    }
  }

  lemma {:induction false} LexLeTrans(a: string, b: string, c: string)
    requires LexLe(a, b) && LexLe(b, c)
    ensures LexLe(a, c)
    decreases |a|
  {
    if |a| > 0 && a[0] == b[0] && b[0] == c[0] {
      LexLeTrans(a[1..], b[1..], c[1..]);
    }
  }

  lemma {:induction false} LexLeAntisym(a: string, b: string)
    requires LexLe(a, b) && LexLe(b, a)
    ensures a == b
    decreases |a|
  {
    if |a| > 0 {
      LexLeAntisym(a[1..], b[1..]);
      assert a == [a[0]] + a[1..] && b == [b[0]] + b[1..];
    }
  }

  /** `a` and `b` agree before index `k`, where `a` has the smaller character. */
  predicate FirstDiffLess(a: string, b: string, k: int) {
    0 <= k < |a| && k < |b| && a[..k] == b[..k] && a[k] < b[k]
  }

  /** `LexLe` is Python's order on `str`: `a <= b` exactly when `a` is a
      prefix of `b`, or the first character where they differ is smaller
      in `a`. */
  lemma {:induction false} LexLeIsPythonOrder(a: string, b: string)
    ensures LexLe(a, b) <==> StartsWith(b, a) || exists k :: FirstDiffLess(a, b, k)
    decreases |a|
  {
    if |a| > 0 && |b| > 0 {
      assert |a| <= |b| ==> b[..|a|][0] == b[0];
      assert FirstDiffLess(a, b, 0) <==> a[0] < b[0];
      if a[0] != b[0] {
        forall k | 0 < k ensures !FirstDiffLess(a, b, k) {
          if 0 < k < |a| && k < |b| { assert a[..k][0] == a[0] && b[..k][0] == b[0]; }
        }
        if a[0] < b[0] { assert FirstDiffLess(a, b, 0); }
      } else {
        var a', b' := a[1..], b[1..];
        LexLeIsPythonOrder(a', b');
        assert StartsWith(b, a) <==> StartsWith(b', a') by {
          if |a| <= |b| {
            assert b[..|a|] == [b[0]] + b'[..|a'|];
            assert a == [a[0]] + a';
          }
        }
        forall k | 0 <= k
          ensures FirstDiffLess(a, b, k + 1) <==> FirstDiffLess(a', b', k)
        {
          if k + 1 < |a| && k + 1 < |b| {
            assert a[..k + 1] == [a[0]] + a'[..k] && b[..k + 1] == [b[0]] + b'[..k];
          }
        }
        if exists k :: FirstDiffLess(a, b, k) {
          var k :| FirstDiffLess(a, b, k);
          assert k > 0;
          assert FirstDiffLess(a', b', k - 1);
        }
        if exists k :: FirstDiffLess(a', b', k) {
          var k :| FirstDiffLess(a', b', k);
          assert FirstDiffLess(a, b, k + 1);
        }
      }
    } else if |a| > 0 {
      assert !FirstDiffLess(a, b, 0);
      assert forall k :: !FirstDiffLess(a, b, k);
    }
  }

  ghost predicate Sorted(s: seq<string>) {
    forall i, j :: 0 <= i < j < |s| ==> LexLe(s[i], s[j])
  }

  /** A head no greater than the first element keeps a sorted list sorted. */
  lemma ConsSorted(x: string, s: seq<string>)
    requires Sorted(s)
    requires s != [] ==> LexLe(x, s[0])
    ensures Sorted([x] + s)
  {
    var t := [x] + s;
    forall i, j | 0 <= i < j < |t| ensures LexLe(t[i], t[j]) {
      if i == 0 {
        assert t[j] == s[j - 1];
        if j > 1 { LexLeTrans(x, s[0], s[j - 1]); }
      } else {
        assert t[i] == s[i - 1] && t[j] == s[j - 1];
      }
    }
  }

  /** A head no greater than every element keeps a sorted list sorted. */
  lemma ConsBelowAll(x: string, s: seq<string>)
    requires Sorted(s)
    requires forall y :: y in s ==> LexLe(x, y)
    ensures Sorted([x] + s)
  {
    if s != [] { assert s[0] in s; }
    ConsSorted(x, s);
  }

  /** Every element of `rest` is drawn from `s[1..]` or is `x`. */
  lemma InsertBound(x: string, s: seq<string>, rest: seq<string>)
    requires s != [] && Sorted(s) && LexLe(s[0], x)
    requires multiset(rest) == multiset(s[1..]) + multiset{x}
    ensures forall y :: y in rest ==> LexLe(s[0], y)
  {
    forall y | y in rest ensures LexLe(s[0], y) {
      assert y in multiset(rest);
      if y != x {
        assert y in multiset(s[1..]);
        var k :| 0 <= k < |s[1..]| && s[1..][k] == y;
        assert s[k + 1] == y;
      }
    }
  }

  /** Insert `x` into a sorted list, keeping it sorted. */
  function Insert(x: string, s: seq<string>): (r: seq<string>)
    requires Sorted(s)
    ensures Sorted(r)
    ensures multiset(r) == multiset(s) + multiset{x}
    ensures |r| == |s| + 1
  {
    if s == [] then [x]
    else if LexLe(x, s[0]) then
      ConsSorted(x, s);
      [x] + s
    else
      var rest := Insert(x, s[1..]);
      assert s == [s[0]] + s[1..];
      LexLeTotal(x, s[0]);
      InsertBound(x, s, rest);
      ConsBelowAll(s[0], rest);
      [s[0]] + rest
  }

  /** Python's `sorted(names)` on a list of strings. */
  function Sort(s: seq<string>): (r: seq<string>)
    ensures Sorted(r)
    ensures multiset(r) == multiset(s)
    ensures |r| == |s|
  {
    if s == [] then [] else
      assert s == [s[0]] + s[1..];
      Insert(s[0], Sort(s[1..]))
  }

  /** `sorted()` keeps exactly the given elements. */
  lemma SortMembers(s: seq<string>)
    ensures forall x :: x in Sort(s) <==> x in s
  {
    var r := Sort(s);
    forall x ensures x in r <==> x in s {
      assert x in r <==> x in multiset(r);
      assert x in s <==> x in multiset(s);
    }
  }

  lemma {:induction false} InsertDistinct(x: string, s: seq<string>)
    requires Sorted(s) && Distinct(s) && x !in s
    ensures Distinct(Insert(x, s))
  {
    if s != [] {
      if LexLe(x, s[0]) {
        DistinctCons(x, s);
      } else {
        DistinctTail(s);
        assert Sorted(s[1..]) by {
          forall i, j | 0 <= i < j < |s[1..]| ensures LexLe(s[1..][i], s[1..][j]) {
            assert s[1..][i] == s[i + 1] && s[1..][j] == s[j + 1];
          }
        }
        InsertDistinct(x, s[1..]);
        var rest := Insert(x, s[1..]);
        assert s[0] !in rest by {
          assert s[0] !in multiset(s[1..]) + multiset{x};
        }
        DistinctCons(s[0], rest);
      }
    }
  }

  /** Sorting a list without repetitions gives one without repetitions. */
  lemma {:induction false} SortDistinct(s: seq<string>)
    requires Distinct(s)
    ensures Distinct(Sort(s))
  {
    if s != [] {
      DistinctTail(s);
      SortDistinct(s[1..]);
      assert s[0] !in Sort(s[1..]) by {
        assert s[0] !in multiset(s[1..]);
      }
      InsertDistinct(s[0], Sort(s[1..]));
    }
  }

  /** Python's `s.startswith(p)`. */
  predicate StartsWith(s: string, p: string) {
    |p| <= |s| && s[..|p|] == p
  }

  /** `sub` occurs in `s` starting at index `i`. */
  predicate OccursAt(s: string, sub: string, i: int) {
    0 <= i && i + |sub| <= |s| && s[i..i + |sub|] == sub
  }

  /** An occurrence at the front is a prefix. */
  lemma OccursAtStart(s: string, sub: string)
    ensures OccursAt(s, sub, 0) <==> StartsWith(s, sub)
  {
    if |sub| <= |s| {
      assert s[0..|sub|] == s[..|sub|];
    }
  }

  /** Occurrences in `s[1..]` are those in `s` after index 0, one place
      to the left. */
  lemma OccursAtShift(s: string, sub: string)
    requires |s| > 0
    ensures forall i :: OccursAt(s[1..], sub, i) ==> OccursAt(s, sub, i + 1)
    ensures forall i :: 0 < i && OccursAt(s, sub, i) ==> OccursAt(s[1..], sub, i - 1)
  {
    forall i | OccursAt(s[1..], sub, i) ensures OccursAt(s, sub, i + 1) {
      assert s[1..][i..i + |sub|] == s[i + 1..i + 1 + |sub|];
    }
    forall i | 0 < i && OccursAt(s, sub, i) ensures OccursAt(s[1..], sub, i - 1) {
      assert s[1..][i - 1..i - 1 + |sub|] == s[i..i + |sub|];
    }
  }

  /** Python's `sub in s` on strings: `sub` occurs somewhere in `s`. */
  predicate Contains(s: string, sub: string): (found: bool)
    ensures found <==> exists i :: OccursAt(s, sub, i)
    decreases |s|
  {
    OccursAtStart(s, sub);
    if |s| == 0 then StartsWith(s, sub)
    else
      OccursAtShift(s, sub);
      StartsWith(s, sub) || Contains(s[1..], sub)
  }

  /** A string without the first character of `sub` cannot contain `sub`. */
  lemma {:induction false} MissingFirstChar(s: string, sub: string)
    requires |sub| > 0 && sub[0] !in s
    ensures !Contains(s, sub)
    decreases |s|
  {
    if |sub| <= |s| {
      assert s[..|sub|][0] == s[0];
    }
    if |s| > 0 {
      assert forall k :: 0 <= k < |s[1..]| ==> s[1..][k] == s[k + 1];
      MissingFirstChar(s[1..], sub);
    }
  }

  /** A string that ends with `sub` contains it. */
  lemma {:induction false} SuffixContained(pre: string, sub: string)
    ensures Contains(pre + sub, sub)
    decreases |pre|
  {
    if pre == [] {
      assert pre + sub == sub;
      assert sub[..|sub|] == sub;
    } else {
      assert (pre + sub)[1..] == pre[1..] + sub;
      SuffixContained(pre[1..], sub);
    }
  }

  function DigitChar(d: nat): char
    requires d < 10
  {
    "0123456789"[d]
  }

  function DigitValue(c: char): nat {
    if '0' <= c <= '9' then (c as int - '0' as int) as nat else 0
  }

  predicate IsDigit(c: char) {
    '0' <= c <= '9'
  }

  /** Python's `str(n)` for a non-negative integer: its decimal digits,
      most significant first, without leading zeros. */
  function Decimal(n: nat): (s: string)
    ensures |s| >= 1
    ensures forall i :: 0 <= i < |s| ==> IsDigit(s[i])
    ensures |s| > 1 ==> s[0] != '0'
  {
    if n < 10 then [DigitChar(n)] else Decimal(n / 10) + [DigitChar(n % 10)]
  }

  /** The value of a string of decimal digits. */
  function DigitsValue(s: string): nat {
    if s == [] then 0 else DigitsValue(s[..|s| - 1]) * 10 + DigitValue(s[|s| - 1])
  }

  /** One or more ASCII decimal digits. */
  predicate DigitRun(t: string) {
    |t| > 0 && forall i :: 0 <= i < |t| ==> IsDigit(t[i])
  }

  predicate IsSign(c: char) {
    c == '-' || c == '+'
  }

  /** The integer literals `int()` accepts here: an optional sign, then one
      or more decimal digits. */
  predicate IsIntLiteral(s: string) {
    DigitRun(s) || (|s| > 0 && IsSign(s[0]) && DigitRun(s[1..]))
  }

  /** The digits of a literal, without its sign. */
  function Unsigned(s: string): string {
    if |s| > 0 && IsSign(s[0]) then s[1..] else s
  }

  /** The sign a literal carries: `-1` after a leading `-`, `1` otherwise. */
  function SignOf(s: string): int {
    if |s| > 0 && s[0] == '-' then -1 else 1
  }

  /** Python's `int(s)` on an optional sign followed by decimal digits; any
      other string raises ValueError, here `None`. */
  function ParseInt(s: string): (r: Option<int>)
    ensures r.Some? <==> IsIntLiteral(s)
    ensures r.Some? ==> r.value == SignOf(s) * DigitsValue(Unsigned(s))
    ensures r.Some? ==> |s| > 0
    ensures r.Some? && s[0] == '-' ==> r.value <= 0
    ensures r.Some? && s[0] != '-' ==> r.value >= 0
    ensures |s| > 0 && !IsDigit(s[0]) && s[0] != '-' && s[0] != '+' ==> r.None?
  {
    if |s| > 0 && (s[0] == '-' || s[0] == '+') then
      var digits := s[1..];
      if |digits| > 0 && forall i :: 0 <= i < |digits| ==> IsDigit(digits[i]) then
        var v: int := DigitsValue(digits);
        Some(if s[0] == '-' then -v else v)
      else None
    else if |s| > 0 && forall i :: 0 <= i < |s| ==> IsDigit(s[i]) then Some(DigitsValue(s))
    else None
  }

  /** `int(str(n)) == n`: reading back a decimal gives the number. */
  lemma {:induction false} DigitsOfDecimal(n: nat)
    ensures DigitsValue(Decimal(n)) == n
  {
    var s := Decimal(n);
    if n < 10 {
      assert DigitValue(DigitChar(n)) == n;
      assert s[..|s| - 1] == [];
    } else {
      DigitsOfDecimal(n / 10);
      assert s[..|s| - 1] == Decimal(n / 10);
      assert DigitValue(DigitChar(n % 10)) == n % 10;
    }
  }

  lemma ParseDecimal(n: nat)
    ensures ParseInt(Decimal(n)) == Some(n)
  {
    DigitsOfDecimal(n);
    assert Decimal(n)[0] != '-' && Decimal(n)[0] != '+' by {
      assert IsDigit(Decimal(n)[0]);
    }
  }

  /** `int("-" + str(n)) == -n`. */
  lemma ParseNegativeDecimal(n: nat)
    ensures ParseInt("-" + Decimal(n)) == Some(-(n as int))
  {
    var t := "-" + Decimal(n);
    DigitsOfDecimal(n);
    assert t[0] == '-' && t[1..] == Decimal(n);
    assert DigitRun(t[1..]);
    assert Unsigned(t) == Decimal(n) && SignOf(t) == -1;
  }

  /** A leading zero does not change the value of a digit run: `int("007") == 7`. */
  lemma {:induction false} DigitsValueLeadingZero(t: string)
    ensures DigitsValue("0" + t) == DigitsValue(t)
    decreases |t|
  {
    if t != [] {
      var u := "0" + t;
      assert u[..|u| - 1] == "0" + t[..|t| - 1];
      assert u[|u| - 1] == t[|t| - 1];
      DigitsValueLeadingZero(t[..|t| - 1]);
    } else {
      assert ("0" + t)[..0] == [];
    }
  }

  /** Leading zeros are accepted and ignored. */
  lemma ParseLeadingZero(t: string)
    requires DigitRun(t)
    ensures ParseInt("0" + t) == ParseInt(t)
  {
    var u := "0" + t;
    assert forall i :: 0 < i < |u| ==> u[i] == t[i - 1];
    assert DigitRun(u);
    DigitsValueLeadingZero(t);
    assert !IsSign(t[0]) && !IsSign(u[0]);
  }

  /** `int("+" + str(n)) == n`. */
  lemma ParsePlusDecimal(n: nat)
    ensures ParseInt("+" + Decimal(n)) == Some(n)
  {
    var t := "+" + Decimal(n);
    DigitsOfDecimal(n);
    assert t[0] == '+' && t[1..] == Decimal(n);
    assert DigitRun(t[1..]);
    assert Unsigned(t) == Decimal(n) && SignOf(t) == 1;
  }

  /** A sign alone, the empty string, and a decimal followed by anything
      but a digit are rejected: `int("-")`, `int("+")`, `int("")` and
      `int("5a")` raise ValueError. */
  lemma ParseRejects(n: nat, c: char)
    requires !IsDigit(c)
    ensures ParseInt("") == None && ParseInt("-") == None && ParseInt("+") == None
    ensures ParseInt(Decimal(n) + [c]) == None
  {
    var t := Decimal(n) + [c];
    assert t[|t| - 1] == c;
    assert !IsSign(t[0]) by { assert t[0] == Decimal(n)[0] && IsDigit(Decimal(n)[0]); }
    assert "-"[1..] == [] && "+"[1..] == [];
  }
}
