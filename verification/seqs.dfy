/** Sequence vocabulary shared by the evaluation engine: occurrence counts,
    the sorted distinct values that `np.unique` returns, maxima and sums, and
    Python's clamping slice `s[lo:hi]`. */
module Seqs {

  /** Number of occurrences of `x` in `s`. */
  function Count<T(==)>(s: seq<T>, x: T): (n: nat)
    ensures n <= |s|
    ensures n > 0 <==> x in s
  {
    if |s| == 0 then 0
    else
      assert s == s[..|s| - 1] + [s[|s| - 1]];
      Count(s[..|s| - 1], x) + (if s[|s| - 1] == x then 1 else 0)
  }

  lemma CountAppend<T>(s: seq<T>, y: T, x: T)
    ensures Count(s + [y], x) == Count(s, x) + (if y == x then 1 else 0)
  {
    assert (s + [y])[..|s|] == s;
  }

  ghost predicate StrictlyIncreasing(s: seq<int>) {
    forall i, j :: 0 <= i < j < |s| ==> s[i] < s[j]
  }

  /** Inserts `x` into a strictly increasing sequence, keeping it so. */
  function Insert(s: seq<int>, x: int): (r: seq<int>)
    requires StrictlyIncreasing(s)
    ensures StrictlyIncreasing(r)
    ensures forall y :: y in r <==> y in s || y == x
    ensures |r| <= |s| + 1
  {
    if |s| == 0 then [x]
    else if x < s[0] then [x] + s
    else if x == s[0] then s
    else
      var rest := Insert(s[1..], x);
      assert forall y :: y in s <==> y == s[0] || y in s[1..];
      assert forall i :: 0 <= i < |rest| ==> s[0] < rest[i] by {
        forall i | 0 <= i < |rest|
          ensures s[0] < rest[i]
        {
          assert rest[i] in s[1..] || rest[i] == x;
        }
      }
      [s[0]] + rest
  }

  /** The distinct values of `s` in increasing order, as `np.unique` and
      pandas' `groupby` (with its default `sort=True`) enumerate them. */
  function Unique(s: seq<int>): (u: seq<int>)
    ensures StrictlyIncreasing(u)
    ensures forall y :: y in u <==> y in s
    ensures |u| <= |s|
  {
    if |s| == 0 then []
    else
      assert forall y :: y in s <==> y in s[..|s| - 1] || y == s[|s| - 1] by {
        assert s == s[..|s| - 1] + [s[|s| - 1]];
      }
      Insert(Unique(s[..|s| - 1]), s[|s| - 1])
  }

  /** A strictly increasing sequence holds each of its values exactly once. */
  lemma {:induction false} CountInIncreasing(u: seq<int>, x: int)
    requires StrictlyIncreasing(u)
    ensures Count(u, x) == (if x in u then 1 else 0)
  {
    if |u| > 0 {
      var init := u[..|u| - 1];
      assert StrictlyIncreasing(init);
      CountInIncreasing(init, x);
      assert u == init + [u[|u| - 1]];
      if x == u[|u| - 1] {
        assert x !in init;
      }
    }
  }

  /** The sum, over the values of `u`, of their counts in `s`. */
  function SumCounts(u: seq<int>, s: seq<int>): nat {
    if |u| == 0 then 0 else SumCounts(u[..|u| - 1], s) + Count(s, u[|u| - 1])
  }

  lemma {:induction false} SumCountsAppend(u: seq<int>, s: seq<int>, y: int)
    ensures SumCounts(u, s + [y]) == SumCounts(u, s) + Count(u, y)
  {
    if |u| > 0 {
      SumCountsAppend(u[..|u| - 1], s, y);
      CountAppend(s, y, u[|u| - 1]);
      CountAppend(u[..|u| - 1], u[|u| - 1], y);
      assert u[..|u| - 1] + [u[|u| - 1]] == u;
    }
  }

  /** Counting each distinct value once and adding the counts gives back the
      length: the groups of a group-by partition the rows. */
  lemma {:induction false} SumCountsOverDistinct(u: seq<int>, s: seq<int>)
    requires StrictlyIncreasing(u)
    requires forall x :: x in s ==> x in u
    ensures SumCounts(u, s) == |s|
  {
    if |s| == 0 {
      SumCountsOfEmpty(u, s);
    } else {
      var init := s[..|s| - 1];
      var y := s[|s| - 1];
      assert s == init + [y];
      SumCountsOverDistinct(u, init);
      SumCountsAppend(u, init, y);
      CountInIncreasing(u, y);
    }
  }

  lemma {:induction false} SumCountsOfEmpty(u: seq<int>, s: seq<int>)
    requires |s| == 0
    ensures SumCounts(u, s) == 0
  {
    if |u| > 0 {
      SumCountsOfEmpty(u[..|u| - 1], s);
    }
  }

  /** `SumCounts` over the values `np.unique` returns is the row count. */
  lemma UniqueCountsSum(s: seq<int>)
    ensures SumCounts(Unique(s), s) == |s|
  {
    SumCountsOverDistinct(Unique(s), s);
  }

  /** The sum of a sequence of counts. */
  function SumNat(s: seq<nat>): nat {
    if |s| == 0 then 0 else SumNat(s[..|s| - 1]) + s[|s| - 1]
  }

  /** The count in `s` of each value of `u`, in the order of `u`. */
  function CountsOf(u: seq<int>, s: seq<int>): (c: seq<nat>)
    ensures |c| == |u|
    ensures forall i :: 0 <= i < |u| ==> c[i] == Count(s, u[i])
  {
    seq(|u|, i requires 0 <= i < |u| => Count(s, u[i]))
  }

  lemma {:induction false} SumNatCountsOf(u: seq<int>, s: seq<int>)
    ensures SumNat(CountsOf(u, s)) == SumCounts(u, s)
  {
    if |u| > 0 {
      var k := |u| - 1;
      SumNatCountsOf(u[..k], s);
      assert CountsOf(u, s)[..k] == CountsOf(u[..k], s);
    }
  }

  /** The largest element of a non-empty sequence of integers. */
  function MaxInt(s: seq<int>): (m: int)
    requires |s| > 0
    ensures m in s
    ensures forall i :: 0 <= i < |s| ==> s[i] <= m
  {
    if |s| == 1 then s[0]
    else
      var m' := MaxInt(s[..|s| - 1]);
      assert s == s[..|s| - 1] + [s[|s| - 1]];
      if s[|s| - 1] > m' then s[|s| - 1] else m'
  }

  /** The largest element of a non-empty sequence of reals (Python's `max`). */
  function MaxReal(s: seq<real>): (m: real)
    requires |s| > 0
    ensures m in s
    ensures forall i :: 0 <= i < |s| ==> s[i] <= m
  {
    if |s| == 1 then s[0]
    else
      var m' := MaxReal(s[..|s| - 1]);
      assert s == s[..|s| - 1] + [s[|s| - 1]];
      if s[|s| - 1] > m' then s[|s| - 1] else m'
  }

  ghost predicate IsMax(m: real, s: seq<real>) {
    m in s && forall i :: 0 <= i < |s| ==> s[i] <= m
  }

  /** The sum of a sequence of reals. */
  function Sum(s: seq<real>): real {
    if |s| == 0 then 0.0 else Sum(s[..|s| - 1]) + s[|s| - 1]
  }

  lemma SumAppend(s: seq<real>, x: real)
    ensures Sum(s + [x]) == Sum(s) + x
  {
    assert (s + [x])[..|s|] == s;
  }

  function Min(a: int, b: int): int {
    if a <= b then a else b
  }

  /** Python's `s[lo:hi]` for non-negative bounds: both ends are clamped to
      the length, and an empty slice results when `hi` falls before `lo`. */
  function Window<T>(s: seq<T>, lo: nat, hi: nat): (w: seq<T>)
    ensures |w| == (if Min(hi, |s|) <= Min(lo, |s|) then 0 else Min(hi, |s|) - Min(lo, |s|))
    ensures forall i :: 0 <= i < |w| ==> lo + i < |s| && w[i] == s[lo + i]
  {
    var a := Min(lo, |s|);
    var b := Min(hi, |s|);
    if b <= a then [] else s[a..b]
  }
}
