/** Accuracy curves: for every round, the fraction of simulations whose arm
    at that round (the running best, or the raw choice) lies in the target
    set of best arms. */
module Accuracy {
  import opened Results
  import opened Seqs
  import opened TrialLog
  import opened BestArm

  /** Every row of the matrix has `horizon` columns. */
  ghost predicate Rectangular(matrix: seq<seq<int>>, horizon: nat) {
    forall n :: 0 <= n < |matrix| ==> |matrix[n]| == horizon
  }

  /** The number of simulations whose arm at round `t` is in `target`
      (`np.isin` / `x in best_arm_indexes`, summed over axis 0). */
  function Hits(matrix: seq<seq<int>>, target: seq<int>, t: nat): (h: nat)
    requires forall n :: 0 <= n < |matrix| ==> t < |matrix[n]|
    ensures h <= |matrix|
  {
    if |matrix| == 0 then 0
    else Hits(matrix[..|matrix| - 1], target, t) + (if matrix[|matrix| - 1][t] in target then 1 else 0)
  }

  /** `Hits` is the size of the set of simulations that match at round `t`. */
  lemma {:induction false} HitsIsSetSize(matrix: seq<seq<int>>, target: seq<int>, t: nat)
    requires forall n :: 0 <= n < |matrix| ==> t < |matrix[n]|
    ensures Hits(matrix, target, t) == |set n | 0 <= n < |matrix| && matrix[n][t] in target|
  {
    if |matrix| > 0 {
      var k := |matrix| - 1;
      var init := matrix[..k];
      HitsIsSetSize(init, target, t);
      var a := set n | 0 <= n < |init| && init[n][t] in target;
      var b := set n | 0 <= n < |matrix| && matrix[n][t] in target;
      if matrix[k][t] in target {
        assert b == a + {k};
      } else {
        assert b == a;
      }
    }
  }

  /** A count of simulations divided by the number of simulations: a
      fraction in [0, 1] that gives the count back when multiplied by it. */
  function Fraction(h: nat, s: nat): (f: real)
    requires 0 < s && h <= s
    ensures f * s as real == h as real
    ensures 0.0 <= f <= 1.0
  {
    h as real / s as real
  }

  /** `probs = counts / n_simulations` over a rectangular matrix. */
  function Probabilities(matrix: seq<seq<int>>, target: seq<int>, horizon: nat): (probs: seq<real>)
    requires |matrix| > 0
    requires Rectangular(matrix, horizon)
    ensures |probs| == horizon
    ensures forall t :: 0 <= t < horizon ==> probs[t] == Fraction(Hits(matrix, target, t), |matrix|)
    ensures forall t :: 0 <= t < horizon ==> 0.0 <= probs[t] <= 1.0
    ensures forall t :: 0 <= t < horizon ==>
              probs[t] * |matrix| as real == |set n | 0 <= n < |matrix| && matrix[n][t] in target| as real
  {
    forall t | 0 <= t < horizon
      ensures Hits(matrix, target, t) == |set n | 0 <= n < |matrix| && matrix[n][t] in target|
    {
      HitsIsSetSize(matrix, target, t);
    }
    seq(horizon, t requires 0 <= t < horizon => Fraction(Hits(matrix, target, t), |matrix|))
  }

  /** Each entry of the curve is the fraction its round's count makes of
      the simulations. */
  lemma ProbabilitiesOfCounts(matrix: seq<seq<int>>, target: seq<int>, horizon: nat, counts: seq<nat>)
    requires |matrix| > 0 && Rectangular(matrix, horizon)
    requires |counts| == horizon
    requires forall t :: 0 <= t < horizon ==> Hits(matrix, target, t) == counts[t]
    ensures forall t :: 0 <= t < horizon ==>
              counts[t] <= |matrix| && Probabilities(matrix, target, horizon)[t] == Fraction(counts[t], |matrix|)
  {
  }

  /** The number of simulations whose arm at round `t` equals `arm`
      (the `x == arm_indexes[i]` test of the scope-expansion plot). */
  function ArmHits(matrix: seq<seq<int>>, arm: int, t: nat): nat
    requires forall n :: 0 <= n < |matrix| ==> t < |matrix[n]|
  {
    if |matrix| == 0 then 0
    else ArmHits(matrix[..|matrix| - 1], arm, t) + (if matrix[|matrix| - 1][t] == arm then 1 else 0)
  }

  /** The per-arm curve of the scope-expansion plot. */
  function ArmProbabilities(matrix: seq<seq<int>>, arm: int, horizon: nat): (probs: seq<real>)
    requires |matrix| > 0
    requires Rectangular(matrix, horizon)
    ensures |probs| == horizon
  {
    seq(horizon, t requires 0 <= t < horizon => ArmHits(matrix, arm, t) as real / |matrix| as real)
  }

  /** Testing one arm with `==` is testing membership in the singleton set
      of that arm. */
  lemma {:induction false} ArmHitsIsSingletonHits(matrix: seq<seq<int>>, arm: int, t: nat)
    requires forall n :: 0 <= n < |matrix| ==> t < |matrix[n]|
    ensures ArmHits(matrix, arm, t) == Hits(matrix, [arm], t)
  {
    if |matrix| > 0 {
      ArmHitsIsSingletonHits(matrix[..|matrix| - 1], arm, t);
    }
  }

  lemma ArmProbabilitiesAreSingletonProbabilities(matrix: seq<seq<int>>, arm: int, horizon: nat)
    requires |matrix| > 0
    requires Rectangular(matrix, horizon)
    ensures ArmProbabilities(matrix, arm, horizon) == Probabilities(matrix, [arm], horizon)
  {
    forall t | 0 <= t < horizon
      ensures ArmProbabilities(matrix, arm, horizon)[t] == Probabilities(matrix, [arm], horizon)[t]
    {
      ArmHitsIsSingletonHits(matrix, arm, t);
    }
  }

  /* ---------------- filling the result matrices ---------------- */

  /** A row of `np.zeros(time_horizon)` whose first entries were overwritten
      by `row`; rounds the simulation never reached stay at arm 0. */
  function ZeroPadded(row: seq<int>, horizon: nat): (r: seq<int>)
    requires |row| <= horizon
    ensures |r| == horizon
    ensures forall t :: 0 <= t < |row| ==> r[t] == row[t]
    ensures forall t :: |row| <= t < horizon ==> r[t] == 0
  {
    row + seq(horizon - |row|, _ => 0)
  }

  /** `best_arms[n, t] = ...` for every simulation `n` and round `t < len(data)`
      into a zero matrix; a simulation with more rows than the horizon makes
      `best_arms[n, t]` raise. */
  function ZeroFilledMatrix(rows: seq<seq<int>>, horizon: nat): (r: Result<seq<seq<int>>>)
    ensures r.Success? <==> forall n :: 0 <= n < |rows| ==> |rows[n]| <= horizon
    ensures r.Success? ==>
              && |r.value| == |rows|
              && Rectangular(r.value, horizon)
              && forall n :: 0 <= n < |rows| ==> r.value[n] == ZeroPadded(rows[n], horizon)
  {
    if |rows| == 0 then Success([])
    else
      var k := |rows| - 1;
      var init := ZeroFilledMatrix(rows[..k], horizon);
      if init.Failure? then
        assert !(|rows[..k]| == k && forall n :: 0 <= n < k ==> |rows[..k][n]| <= horizon);
        Failure(init.error)
      else if |rows[k]| > horizon then
        Failure(RoundOutOfRange(k, |rows[k]|, horizon))
      else
        Success(init.value + [ZeroPadded(rows[k], horizon)])
  }

  /** The error names the first simulation with more rows than the
      horizon. */
  lemma {:induction false} ZeroFilledMatrixFailsAtFirst(rows: seq<seq<int>>, horizon: nat)
    requires ZeroFilledMatrix(rows, horizon).Failure?
    ensures exists n :: 0 <= n < |rows| && |rows[n]| > horizon
                        && ZeroFilledMatrix(rows, horizon).error == RoundOutOfRange(n, |rows[n]|, horizon)
                        && forall k :: 0 <= k < n ==> |rows[k]| <= horizon
  {
    var k := |rows| - 1;
    var init := ZeroFilledMatrix(rows[..k], horizon);
    if init.Failure? {
      ZeroFilledMatrixFailsAtFirst(rows[..k], horizon);
      var n :| 0 <= n < k && |rows[..k][n]| > horizon
               && init.error == RoundOutOfRange(n, |rows[..k][n]|, horizon)
               && forall j :: 0 <= j < n ==> |rows[..k][j]| <= horizon;
      assert rows[..k][n] == rows[n];
      assert forall j :: 0 <= j < n ==> rows[..k][j] == rows[j];
    } else {
      assert forall j :: 0 <= j < k ==> rows[..k][j] == rows[j];
    }
  }

  /** numpy's row assignment `all_arms[ii, :] = values`: a list of the
      horizon's length is copied, a list of length one is broadcast to
      every round, and any other length raises. */
  function BroadcastRow(values: seq<int>, sim: nat, horizon: nat): (r: Result<seq<int>>)
    ensures r.Success? <==> |values| == horizon || |values| == 1
    ensures r.Success? ==> |r.value| == horizon
    ensures r.Success? && |values| == horizon ==> r.value == values
    ensures r.Success? && |values| == 1 ==> forall t :: 0 <= t < horizon ==> r.value[t] == values[0]
    ensures r.Failure? ==> r.error == BroadcastMismatch(sim, |values|, horizon)
  {
    if |values| == horizon then Success(values)
    else if |values| == 1 then Success(seq(horizon, _ => values[0]))
    else Failure(BroadcastMismatch(sim, |values|, horizon))
  }

  /** The `all_arms` matrix of the raw-choice plot, one assignment per
      simulation in order. */
  function BroadcastMatrix(rows: seq<seq<int>>, horizon: nat): (r: Result<seq<seq<int>>>)
    ensures r.Success? <==> forall n :: 0 <= n < |rows| ==> |rows[n]| == horizon || |rows[n]| == 1
    ensures r.Success? ==>
              && |r.value| == |rows|
              && Rectangular(r.value, horizon)
              && forall n :: 0 <= n < |rows| ==> BroadcastRow(rows[n], n, horizon) == Success(r.value[n])
  {
    if |rows| == 0 then Success([])
    else
      var k := |rows| - 1;
      var init := BroadcastMatrix(rows[..k], horizon);
      if init.Failure? then
        Failure(init.error)
      else
        var last := BroadcastRow(rows[k], k, horizon);
        if last.Failure? then Failure(last.error)
        else Success(init.value + [last.value])
  }
}
