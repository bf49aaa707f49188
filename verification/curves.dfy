/** The accuracy curves the analysis functions compute from one trial log:
    `get_accuracy_bandit_algos` (running best by selection count),
    `get_accuracy_random_exploration` (running best by mean reward), the
    raw-choice curve of `plot_probs_choosing_best_arm`, the per-arm curves of
    `plot_accuracy_best_arm_scope_expansion`, and the window a plot shows. */
module Curves {
  import opened Results
  import opened Seqs
  import opened TrialLog
  import opened BestArm
  import opened Accuracy

  /** The running best arms of simulations `0 .. simulations - 1`. */
  function BestRows(crit: Criterion, log: seq<Row>, simulations: nat, choose: Chooser): (rows: seq<seq<int>>)
    ensures |rows| == simulations
    ensures forall n :: 0 <= n < simulations ==> |rows[n]| == |SimRows(log, n)|
  {
    seq(simulations, n requires 0 <= n < simulations => RunningBest(crit, SimRows(log, n), n, choose))
  }

  /** What `best_arms[n, t]` holds once the loops are done: the running best
      arm if simulation `n` reached round `t`, else the 0 it started as. */
  function BestAtRound(crit: Criterion, log: seq<Row>, n: nat, t: nat, choose: Chooser): int {
    var best := RunningBest(crit, SimRows(log, n), n, choose);
    if t < |best| then best[t] else 0
  }

  /** The simulations whose best arm at round `t` is one of the targets. */
  function MatchingSims(crit: Criterion, log: seq<Row>, simulations: nat, t: nat, target: seq<int>, choose: Chooser): set<int> {
    set n | 0 <= n < simulations && BestAtRound(crit, log, n, t, choose) in target
  }

  /** Every simulation fits in the horizon. */
  ghost predicate FitsHorizon(log: seq<Row>, shape: Shape) {
    forall n :: 0 <= n < shape.simulations ==> |SimRows(log, n)| <= shape.horizon
  }

  /** `probs` is an accuracy curve of the log: one entry per round, each the
      fraction of the simulations whose best arm at that round is a target. */
  ghost predicate IsAccuracyCurve(crit: Criterion, log: seq<Row>, shape: Shape, target: seq<int>, choose: Chooser,
                                  probs: seq<real>)
  {
    && shape.simulations > 0
    && |probs| == shape.horizon
    && forall t :: 0 <= t < shape.horizon ==>
         && |MatchingSims(crit, log, shape.simulations, t, target, choose)| <= shape.simulations
         && probs[t] == Fraction(|MatchingSims(crit, log, shape.simulations, t, target, choose)|, shape.simulations)
  }

  /** The zero-filled matrix can be built exactly when every simulation
      fits in the horizon. */
  lemma BestRowsFit(crit: Criterion, log: seq<Row>, shape: Shape, choose: Chooser)
    ensures ZeroFilledMatrix(BestRows(crit, log, shape.simulations, choose), shape.horizon).Success?
            <==> FitsHorizon(log, shape)
  {
  }

  /** The best-arm matrix and its accuracy curve for a log of known shape. */
  function BestArmCurve(crit: Criterion, log: seq<Row>, shape: Shape, target: seq<int>, choose: Chooser): (r: Result<seq<real>>)
    requires shape.simulations > 0
    ensures r.Success? <==> FitsHorizon(log, shape)
    ensures r.Success? ==> IsAccuracyCurve(crit, log, shape, target, choose, r.value)
  {
    var rows := BestRows(crit, log, shape.simulations, choose);
    BestRowsFit(crit, log, shape, choose);
    var matrix :- ZeroFilledMatrix(rows, shape.horizon);
    MatrixIsBestAtRound(crit, log, shape, choose, rows, matrix);
    var probs := Probabilities(matrix, target, shape.horizon);
    CurveCountsMatches(crit, log, shape, target, choose, matrix, probs);
    Success(probs)
  }

  /** The zero-filled best-arm matrix holds, at `[n][t]`, the best arm of
      simulation `n` at round `t`. */
  lemma MatrixIsBestAtRound(crit: Criterion, log: seq<Row>, shape: Shape, choose: Chooser,
                            rows: seq<seq<int>>, matrix: seq<seq<int>>)
    requires rows == BestRows(crit, log, shape.simulations, choose)
    requires ZeroFilledMatrix(rows, shape.horizon) == Success(matrix)
    ensures |matrix| == shape.simulations && Rectangular(matrix, shape.horizon)
    ensures forall n, t :: 0 <= n < |matrix| && 0 <= t < shape.horizon ==>
              matrix[n][t] == BestAtRound(crit, log, n, t, choose)
  {
    forall n, t | 0 <= n < |matrix| && 0 <= t < shape.horizon
      ensures matrix[n][t] == BestAtRound(crit, log, n, t, choose)
    {
      assert matrix[n] == ZeroPadded(rows[n], shape.horizon);
    }
  }

  /** The hit count of round `t` is the number of matching simulations. */
  lemma RoundHits(crit: Criterion, log: seq<Row>, shape: Shape, target: seq<int>, choose: Chooser,
                  matrix: seq<seq<int>>, t: nat)
    requires |matrix| == shape.simulations && Rectangular(matrix, shape.horizon)
    requires t < shape.horizon
    requires forall n :: 0 <= n < |matrix| ==> matrix[n][t] == BestAtRound(crit, log, n, t, choose)
    ensures Hits(matrix, target, t) == |MatchingSims(crit, log, shape.simulations, t, target, choose)|
  {
    HitsIsSetSize(matrix, target, t);
    var hits := set n | 0 <= n < |matrix| && matrix[n][t] in target;
    var sims := MatchingSims(crit, log, shape.simulations, t, target, choose);
    forall n
      ensures n in hits <==> n in sims
    {
      if 0 <= n < |matrix| {
        assert matrix[n][t] == BestAtRound(crit, log, n, t, choose);
      }
    }
    assert hits == sims;
  }

  lemma CurveCountsMatches(crit: Criterion, log: seq<Row>, shape: Shape, target: seq<int>, choose: Chooser,
                           matrix: seq<seq<int>>, probs: seq<real>)
    requires shape.simulations > 0
    requires |matrix| == shape.simulations && Rectangular(matrix, shape.horizon)
    requires forall n, t :: 0 <= n < |matrix| && 0 <= t < shape.horizon ==>
               matrix[n][t] == BestAtRound(crit, log, n, t, choose)
    requires probs == Probabilities(matrix, target, shape.horizon)
    ensures IsAccuracyCurve(crit, log, shape, target, choose, probs)
  {
    var counts := seq(shape.horizon, t requires 0 <= t < shape.horizon =>
                        |MatchingSims(crit, log, shape.simulations, t, target, choose)|);
    forall t | 0 <= t < shape.horizon
      ensures Hits(matrix, target, t) == counts[t]
    {
      RoundHits(crit, log, shape, target, choose, matrix, t);
    }
    ProbabilitiesOfCounts(matrix, target, shape.horizon, counts);
    forall t | 0 <= t < shape.horizon
      ensures |MatchingSims(crit, log, shape.simulations, t, target, choose)| <= shape.simulations
      ensures probs[t] == Fraction(|MatchingSims(crit, log, shape.simulations, t, target, choose)|, shape.simulations)
    {
      assert counts[t] == |MatchingSims(crit, log, shape.simulations, t, target, choose)|;
    }
  }

  /** The curve of a log under `crit`, sized by the log's own shape. */
  function LogCurve(crit: Criterion, log: seq<Row>, target: seq<int>, choose: Chooser): (r: Result<seq<real>>)
    ensures |log| == 0 ==> r == Failure(EmptyLog)
    ensures |log| > 0 ==> (r.Success? <==> FitsHorizon(log, LogShape(log).value))
    ensures r.Success? ==> IsAccuracyCurve(crit, log, LogShape(log).value, target, choose, r.value)
  {
    var shape :- LogShape(log);
    BestArmCurve(crit, log, shape, target, choose)
  }

  /** `get_accuracy_bandit_algos`: at each round the fraction of simulations
      whose most-chosen arm so far is one of the best arms. */
  function AccuracyBanditAlgos(log: seq<Row>, target: seq<int>, choose: Chooser): (r: Result<seq<real>>)
    ensures |log| == 0 ==> r == Failure(EmptyLog)
    ensures |log| > 0 ==> (r.Success? <==> FitsHorizon(log, LogShape(log).value))
    ensures r.Success? ==> IsAccuracyCurve(SelectionCount, log, LogShape(log).value, target, choose, r.value)
  {
    LogCurve(SelectionCount, log, target, choose)
  }

  /** `get_accuracy_random_exploration`: the same fraction when the running
      best is the arm with the highest mean reward so far. */
  function AccuracyRandomExploration(log: seq<Row>, target: seq<int>, choose: Chooser): (r: Result<seq<real>>)
    ensures |log| == 0 ==> r == Failure(EmptyLog)
    ensures |log| > 0 ==> (r.Success? <==> FitsHorizon(log, LogShape(log).value))
    ensures r.Success? ==> IsAccuracyCurve(MeanReward, log, LogShape(log).value, target, choose, r.value)
  {
    LogCurve(MeanReward, log, target, choose)
  }

  /** A well-ordered log never makes the best-arm loops index past the
      horizon, so its curves always exist. */
  lemma WellOrderedLogHasCurve(crit: Criterion, log: seq<Row>, target: seq<int>, choose: Chooser)
    requires WellOrdered(log)
    requires |log| > 0
    ensures LogCurve(crit, log, target, choose).Success?
  {
    var shape := LogShape(log).value;
    forall n | 0 <= n < shape.simulations
      ensures |SimRows(log, n)| <= shape.horizon
    {
      SimRowsWithinHorizon(log, shape, n);
    }
    assert FitsHorizon(log, shape);
  }

  /** Cutting the log at round `m` leaves each simulation's best arm at the
      rounds before `m` as it was: the running best reads only the rounds so
      far. */
  lemma TruncatedBestAtRound(crit: Criterion, log: seq<Row>, m: nat, n: nat, t: nat, choose: Chooser)
    requires WellOrdered(log)
    requires t < m
    ensures BestAtRound(crit, TruncateLog(log, m), n, t, choose) == BestAtRound(crit, log, n, t, choose)
  {
    var rows := SimRows(log, n);
    var k := Min(m, |rows|);
    TruncateSimRows(log, m, n);
    RunningBestPrefix(crit, rows, n, choose, k);
    var best := RunningBest(crit, rows, n, choose);
    var cutBest := RunningBest(crit, SimRows(TruncateLog(log, m), n), n, choose);
    assert cutBest == best[..k];
    if t < |rows| {
      assert cutBest[t] == best[t];
    }
  }

  /** Cutting the log at round `m` leaves the matching simulations of each
      earlier round as they were. */
  lemma TruncatedMatchingSims(crit: Criterion, log: seq<Row>, m: nat, simulations: nat, t: nat,
                              target: seq<int>, choose: Chooser)
    requires WellOrdered(log)
    requires t < m
    ensures MatchingSims(crit, TruncateLog(log, m), simulations, t, target, choose)
            == MatchingSims(crit, log, simulations, t, target, choose)
  {
    forall n | 0 <= n < simulations
      ensures BestAtRound(crit, TruncateLog(log, m), n, t, choose) == BestAtRound(crit, log, n, t, choose)
    {
      TruncatedBestAtRound(crit, log, m, n, t, choose);
    }
  }

  /** A well-ordered log cut at round `m` has the cut shape, and every
      simulation fits it. */
  lemma TruncatedFits(log: seq<Row>, shape: Shape, m: nat)
    requires WellOrdered(log)
    requires LogShape(log) == Success(shape)
    requires 0 < m <= shape.horizon
    ensures |TruncateLog(log, m)| > 0
    ensures LogShape(TruncateLog(log, m)) == Success(Shape(shape.simulations, m))
    ensures FitsHorizon(TruncateLog(log, m), Shape(shape.simulations, m))
  {
    TruncatedShape(log, shape, m);
    forall n | 0 <= n < shape.simulations
      ensures |SimRows(TruncateLog(log, m), n)| <= m
    {
      TruncateSimRows(log, m, n);
    }
  }

  /** Two curves over the same simulations whose matching simulations agree
      on the first `m` rounds agree on those rounds. */
  lemma SameMatchesSameCurve(crit: Criterion, log: seq<Row>, cut: seq<Row>, shape: Shape, m: nat,
                             target: seq<int>, choose: Chooser, p: seq<real>, q: seq<real>)
    requires m <= shape.horizon
    requires IsAccuracyCurve(crit, log, shape, target, choose, p)
    requires IsAccuracyCurve(crit, cut, Shape(shape.simulations, m), target, choose, q)
    requires forall t :: 0 <= t < m ==>
               MatchingSims(crit, cut, shape.simulations, t, target, choose)
               == MatchingSims(crit, log, shape.simulations, t, target, choose)
    ensures q == p[..m]
  {
  }

  /** The curve of a log cut at round `m` is the first `m` entries of the
      curve of the whole log.  Both curves use the same `choose`, so this
      holds for every outcome of the tie-break draws, keyed by simulation
      and round; it is not a claim about one seed of a sequential generator,
      whose draws the two runs would consume differently. */
  lemma TruncatedCurve(crit: Criterion, log: seq<Row>, target: seq<int>, choose: Chooser, m: nat)
    requires WellOrdered(log) && |log| > 0
    requires 0 < m <= LogShape(log).value.horizon
    ensures LogCurve(crit, log, target, choose).Success?
    ensures LogCurve(crit, TruncateLog(log, m), target, choose)
            == Success(LogCurve(crit, log, target, choose).value[..m])
  {
    var shape := LogShape(log).value;
    var cut := TruncateLog(log, m);
    WellOrderedLogHasCurve(crit, log, target, choose);
    TruncatedFits(log, shape, m);
    forall t | 0 <= t < m
      ensures MatchingSims(crit, cut, shape.simulations, t, target, choose)
              == MatchingSims(crit, log, shape.simulations, t, target, choose)
    {
      TruncatedMatchingSims(crit, log, m, shape.simulations, t, target, choose);
    }
    SameMatchesSameCurve(crit, log, cut, shape, m, target, choose,
                         LogCurve(crit, log, target, choose).value, LogCurve(crit, cut, target, choose).value);
  }

  /** The slice of the curve that `plot_accuracy_best_arm` draws:
      `probs[ignore_first_rounds:]` when `max_horizon_plot` is 0, else
      `probs[ignore_first_rounds:max_horizon_plot]`. */
  function PlottedWindow(probs: seq<real>, ignore: nat, maxPlot: nat): (w: seq<real>)
    ensures maxPlot == 0 || maxPlot >= |probs| ==> |w| == if ignore < |probs| then |probs| - ignore else 0
    ensures 0 < maxPlot < |probs| ==> |w| == if ignore < maxPlot then maxPlot - ignore else 0
    ensures forall i :: 0 <= i < |w| ==> ignore + i < |probs| && w[i] == probs[ignore + i]
  {
    if maxPlot == 0 then Window(probs, ignore, |probs|) else Window(probs, ignore, maxPlot)
  }

  /** Plotting up to round `m` shows exactly what the whole curve of the log
      cut at round `m` shows: the rounds after `m` never influence the
      plotted part.  As for `TruncatedCurve`, this holds per outcome of the
      tie-break draws (the same `choose` in both runs), not per seed. */
  lemma PlotDependsOnlyOnPlottedRounds(crit: Criterion, log: seq<Row>, target: seq<int>, choose: Chooser,
                                       ignore: nat, m: nat)
    requires WellOrdered(log) && |log| > 0
    requires 0 < m <= LogShape(log).value.horizon
    ensures LogCurve(crit, log, target, choose).Success?
    ensures LogCurve(crit, TruncateLog(log, m), target, choose).Success?
    ensures PlottedWindow(LogCurve(crit, log, target, choose).value, ignore, m)
            == PlottedWindow(LogCurve(crit, TruncateLog(log, m), target, choose).value, ignore, 0)
  {
    TruncatedCurve(crit, log, target, choose, m);
  }

  /** The arm simulation `n` chose at round `t` in the raw-choice matrix:
      its only choice broadcast, or its choice at that round. */
  function RawAtRound(log: seq<Row>, n: nat, t: nat): int {
    var arms := SimArms(log, n);
    if |arms| == 1 then arms[0] else if t < |arms| then arms[t] else 0
  }

  /** The simulations whose raw choice at round `t` is one of the targets. */
  function RawMatchingSims(log: seq<Row>, simulations: nat, t: nat, target: seq<int>): set<int> {
    set n | 0 <= n < simulations && RawAtRound(log, n, t) in target
  }

  /** Every simulation's choices fill the horizon (or are a single choice
      numpy broadcasts). */
  ghost predicate FillsHorizon(log: seq<Row>, shape: Shape) {
    forall n :: 0 <= n < shape.simulations ==> |SimArms(log, n)| == shape.horizon || |SimArms(log, n)| == 1
  }

  /** `probs` is the raw-choice curve: at each round the fraction of the
      simulations that chose a target arm at that round. */
  ghost predicate IsRawChoiceCurve(log: seq<Row>, shape: Shape, target: seq<int>, probs: seq<real>) {
    && shape.simulations > 0
    && |probs| == shape.horizon
    && forall t :: 0 <= t < shape.horizon ==>
         && |RawMatchingSims(log, shape.simulations, t, target)| <= shape.simulations
         && probs[t] == Fraction(|RawMatchingSims(log, shape.simulations, t, target)|, shape.simulations)
  }

  /** The per-simulation choice lists `list(df.loc[df['num_sims'] == ii]['chosen_arm'])`,
      in simulation order: list `n` is as long as id `n` occurs in the log
      and holds exactly the arms of those rows. */
  function ChoiceRows(log: seq<Row>, simulations: nat): (rows: seq<seq<int>>)
    ensures |rows| == simulations
    ensures forall n :: 0 <= n < simulations ==> rows[n] == SimArms(log, n)
    ensures forall n :: 0 <= n < simulations ==> |rows[n]| == Count(SimColumn(log), n)
    ensures forall n, a :: 0 <= n < simulations ==>
              (a in rows[n] <==> exists i :: 0 <= i < |log| && log[i].sim == n && log[i].arm == a)
  {
    SimRowsCounts(log);
    SimArmsMembers(log);
    seq(simulations, n requires 0 <= n < simulations => SimArms(log, n))
  }

  /** The raw choice matrix holds, at `[n][t]`, the raw choice of
      simulation `n` at round `t`. */
  lemma RawMatrixIsRawAtRound(log: seq<Row>, shape: Shape, matrix: seq<seq<int>>)
    requires BroadcastMatrix(ChoiceRows(log, shape.simulations), shape.horizon) == Success(matrix)
    ensures |matrix| == shape.simulations && Rectangular(matrix, shape.horizon)
    ensures forall n, t :: 0 <= n < |matrix| && 0 <= t < shape.horizon ==>
              matrix[n][t] == RawAtRound(log, n, t)
  {
    var rows := ChoiceRows(log, shape.simulations);
    forall n, t | 0 <= n < |matrix| && 0 <= t < shape.horizon
      ensures matrix[n][t] == RawAtRound(log, n, t)
    {
      assert BroadcastRow(rows[n], n, shape.horizon) == Success(matrix[n]);
    }
  }

  /** The raw-choice hit count of round `t` is the number of matching
      simulations. */
  lemma RawRoundHits(log: seq<Row>, shape: Shape, target: seq<int>, matrix: seq<seq<int>>, t: nat)
    requires |matrix| == shape.simulations && Rectangular(matrix, shape.horizon)
    requires t < shape.horizon
    requires forall n :: 0 <= n < |matrix| ==> matrix[n][t] == RawAtRound(log, n, t)
    ensures Hits(matrix, target, t) == |RawMatchingSims(log, shape.simulations, t, target)|
  {
    HitsIsSetSize(matrix, target, t);
    var hits := set n | 0 <= n < |matrix| && matrix[n][t] in target;
    var sims := RawMatchingSims(log, shape.simulations, t, target);
    forall n
      ensures n in hits <==> n in sims
    {
      if 0 <= n < |matrix| {
        assert matrix[n][t] == RawAtRound(log, n, t);
      }
    }
    assert hits == sims;
  }

  lemma RawCurveCountsMatches(log: seq<Row>, shape: Shape, target: seq<int>, matrix: seq<seq<int>>, probs: seq<real>)
    requires shape.simulations > 0
    requires |matrix| == shape.simulations && Rectangular(matrix, shape.horizon)
    requires forall n, t :: 0 <= n < |matrix| && 0 <= t < shape.horizon ==>
               matrix[n][t] == RawAtRound(log, n, t)
    requires probs == Probabilities(matrix, target, shape.horizon)
    ensures IsRawChoiceCurve(log, shape, target, probs)
  {
    var counts := seq(shape.horizon, t requires 0 <= t < shape.horizon =>
                        |RawMatchingSims(log, shape.simulations, t, target)|);
    forall t | 0 <= t < shape.horizon
      ensures Hits(matrix, target, t) == counts[t]
    {
      RawRoundHits(log, shape, target, matrix, t);
    }
    ProbabilitiesOfCounts(matrix, target, shape.horizon, counts);
    forall t | 0 <= t < shape.horizon
      ensures |RawMatchingSims(log, shape.simulations, t, target)| <= shape.simulations
      ensures probs[t] == Fraction(|RawMatchingSims(log, shape.simulations, t, target)|, shape.simulations)
    {
      assert counts[t] == |RawMatchingSims(log, shape.simulations, t, target)|;
    }
  }

  /** The curve of `plot_probs_choosing_best_arm`: at each round the
      fraction of simulations whose choice at that round is a target arm. */
  function ProbsChoosingBestArm(log: seq<Row>, target: seq<int>): (r: Result<seq<real>>)
    ensures |log| == 0 ==> r == Failure(EmptyLog)
    ensures |log| > 0 ==> (r.Success? <==> FillsHorizon(log, LogShape(log).value))
    ensures r.Success? ==> IsRawChoiceCurve(log, LogShape(log).value, target, r.value)
  {
    var shape :- LogShape(log);
    var matrix :- BroadcastMatrix(ChoiceRows(log, shape.simulations), shape.horizon);
    RawMatrixIsRawAtRound(log, shape, matrix);
    var probs := Probabilities(matrix, target, shape.horizon);
    RawCurveCountsMatches(log, shape, target, matrix, probs);
    Success(probs)
  }

  /** `plot_accuracy_best_arm_scope_expansion`: one curve per arm of
      interest, each the fraction of simulations whose most-chosen arm so
      far is that very arm. */
  function ScopeExpansionAccuracy(log: seq<Row>, arms: seq<int>, choose: Chooser): (r: Result<seq<seq<real>>>)
    ensures |log| == 0 ==> r == Failure(EmptyLog)
    ensures |log| > 0 ==> (r.Success? <==> FitsHorizon(log, LogShape(log).value))
    ensures r.Success? ==>
              && |r.value| == |arms|
              && forall i :: 0 <= i < |arms| ==>
                   AccuracyBanditAlgos(log, [arms[i]], choose) == Success(r.value[i])
  {
    var shape :- LogShape(log);
    var rows := BestRows(SelectionCount, log, shape.simulations, choose);
    BestRowsFit(SelectionCount, log, shape, choose);
    var matrix :- ZeroFilledMatrix(rows, shape.horizon);
    ArmCurvesAreSingletonCurves(log, shape, arms, choose, rows, matrix);
    Success(seq(|arms|, i requires 0 <= i < |arms| => ArmProbabilities(matrix, arms[i], shape.horizon)))
  }

  lemma ArmCurvesAreSingletonCurves(log: seq<Row>, shape: Shape, arms: seq<int>, choose: Chooser,
                                    rows: seq<seq<int>>, matrix: seq<seq<int>>)
    requires LogShape(log) == Success(shape)
    requires rows == BestRows(SelectionCount, log, shape.simulations, choose)
    requires ZeroFilledMatrix(rows, shape.horizon) == Success(matrix)
    ensures |matrix| > 0 && Rectangular(matrix, shape.horizon)
    ensures forall i :: 0 <= i < |arms| ==>
              AccuracyBanditAlgos(log, [arms[i]], choose) == Success(ArmProbabilities(matrix, arms[i], shape.horizon))
  {
    forall i | 0 <= i < |arms|
      ensures AccuracyBanditAlgos(log, [arms[i]], choose) == Success(ArmProbabilities(matrix, arms[i], shape.horizon))
    {
      ArmProbabilitiesAreSingletonProbabilities(matrix, arms[i], shape.horizon);
    }
  }
}
