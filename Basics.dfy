/** Small value types shared by every module: Option, Result, and the
    order-preserving restriction of a sequence to a set of elements that
    models a Python comprehension `[x for x in xs if x in keep]`. */
module Basics {

  datatype Option<+T> = None | Some(value: T) {
    function GetOr(default: T): T {
      match this
      case Some(v) => v
      case None => default
    }
  }

  datatype Result<+T, +E> = Ok(value: T) | Err(error: E)

  /** FastAPI's `HTTPException`, reduced to its status code. */
  datatype HttpError = HttpError(status: nat)

  /** No element occurs twice. */
  ghost predicate Distinct<T>(s: seq<T>) {
    forall i, j :: 0 <= i < j < |s| ==> s[i] != s[j]
  }

  /** The elements of `s` that lie in `keep`, in the order of `s`. */
  function Restrict<T(!new)>(s: seq<T>, keep: set<T>): (r: seq<T>)
    ensures forall x :: x in r <==> x in s && x in keep
    ensures |r| <= |s|
  {
    if s == [] then []
    else (if s[0] in keep then [s[0]] else []) + Restrict(s[1..], keep)
  }

  /** Restriction distributes over concatenation, so it keeps relative order. */
  lemma {:induction false} RestrictAppend<T(!new)>(a: seq<T>, b: seq<T>, keep: set<T>)
    ensures Restrict(a + b, keep) == Restrict(a, keep) + Restrict(b, keep)
  {
    if a == [] {
      assert a + b == b;
    } else {
      assert (a + b)[0] == a[0];
      assert (a + b)[1..] == a[1..] + b;
      RestrictAppend(a[1..], b, keep);
    }
  }

  lemma DistinctTail<T>(s: seq<T>)
    requires Distinct(s) && s != []
    ensures Distinct(s[1..]) && s[0] !in s[1..]
  {
    forall i, j | 0 <= i < j < |s[1..]| ensures s[1..][i] != s[1..][j] {
      assert s[1..][i] == s[i + 1] && s[1..][j] == s[j + 1];
    }
    forall k | 0 <= k < |s[1..]| ensures s[1..][k] != s[0] {
      assert s[1..][k] == s[k + 1];
    }
  }

  lemma DistinctCons<T>(x: T, s: seq<T>)
    requires Distinct(s) && x !in s
    ensures Distinct([x] + s)
  {
    forall i, j | 0 <= i < j < |[x] + s| ensures ([x] + s)[i] != ([x] + s)[j] {
      assert ([x] + s)[j] == s[j - 1];
      if i > 0 { assert ([x] + s)[i] == s[i - 1]; }
    }
  }

  /** Restricting a sequence without repetitions gives one without repetitions. */
  lemma {:induction false} RestrictDistinct<T(!new)>(s: seq<T>, keep: set<T>)
    requires Distinct(s)
    ensures Distinct(Restrict(s, keep))
  {
    if s != [] {
      DistinctTail(s);
      RestrictDistinct(s[1..], keep);
      if s[0] in keep {
        DistinctCons(s[0], Restrict(s[1..], keep));
      } else {
        assert Restrict(s, keep) == Restrict(s[1..], keep);
      }
    }
  }

  /** Restricting twice is restricting to the intersection. */
  lemma {:induction false} RestrictTwice<T(!new)>(s: seq<T>, a: set<T>, b: set<T>)
    ensures Restrict(Restrict(s, a), b) == Restrict(s, a * b)
  {
    if s != [] {
      RestrictTwice(s[1..], a, b);
      var r := Restrict(s, a);
      if s[0] in a {
        assert r == [s[0]] + Restrict(s[1..], a);
        assert r[0] == s[0] && r[1..] == Restrict(s[1..], a);
        assert Restrict(r, b) == (if s[0] in b then [s[0]] else []) + Restrict(r[1..], b);
      } else {
        assert r == Restrict(s[1..], a);
      }
    }
  }

  /** An element kept by the restriction sits just after the kept elements
      that precede it. */
  lemma RestrictAt<T(!new)>(s: seq<T>, keep: set<T>, p: nat)
    requires p < |s| && s[p] in keep
    ensures |Restrict(s[..p], keep)| < |Restrict(s, keep)|
    ensures Restrict(s, keep)[|Restrict(s[..p], keep)|] == s[p]
    ensures Restrict(s, keep)[..|Restrict(s[..p], keep)|] == Restrict(s[..p], keep)
  {
    assert s == s[..p] + s[p..];
    RestrictAppend(s[..p], s[p..], keep);
    assert s[p..][0] == s[p];
    assert Restrict(s[p..], keep) == [s[p]] + Restrict(s[p..][1..], keep);
  }
}
