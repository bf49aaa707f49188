/** `plot_arm_counts`: how often each arm was chosen per simulation, the
    per-arm average over the simulations that chose it, the ranking of the
    arms by that average, and the even-split baseline it is drawn against. */
module ArmCounts {
  import opened Results
  import opened Seqs
  import opened TrialLog
  import opened Catalog

  /** The rows that chose arm `a`, in log order. */
  function ArmRows(log: seq<Row>, a: int): (rows: seq<Row>)
    ensures |rows| <= |log|
  {
    if |log| == 0 then []
    else
      var init := log[..|log| - 1];
      var last := log[|log| - 1];
      ArmRows(init, a) + (if last.arm == a then [last] else [])
  }

  /** Number of rows of simulation `n` that chose arm `a`, counted row by
      row over the whole log. */
  function PairCount(log: seq<Row>, a: int, n: int): (c: nat)
    ensures c <= |log|
  {
    if |log| == 0 then 0
    else
      var last := log[|log| - 1];
      PairCount(log[..|log| - 1], a, n) + (if last.arm == a && last.sim == n then 1 else 0)
  }

  /** One cell of `allcounts = ....groupby(['chosen_arm', 'num_sims']).count()`:
      within group `a`, the rows whose `num_sims` is `n`. */
  function Cell(log: seq<Row>, a: int, n: int): nat {
    Count(SimColumn(ArmRows(log, a)), n)
  }

  /** The `num_sims` values of group `a`, in increasing order: the
      simulations that chose `a` at least once. */
  function ArmSims(log: seq<Row>, a: int): seq<int> {
    Unique(SimColumn(ArmRows(log, a)))
  }

  /** The `chosen_arm` level of the group-by, in increasing order. */
  function ChosenArms(log: seq<Row>): seq<int> {
    Unique(Arms(log))
  }

  lemma {:induction false} ArmRowsCount(log: seq<Row>, a: int)
    ensures |ArmRows(log, a)| == Count(Arms(log), a)
  {
    if |log| > 0 {
      var k := |log| - 1;
      ArmRowsCount(log[..k], a);
      assert Arms(log) == Arms(log[..k]) + [log[k].arm];
      CountAppend(Arms(log[..k]), log[k].arm, a);
    }
  }

  /** Counting the rows of (arm `a`, simulation `n`) inside arm `a`'s group
      gives the row-by-row count. */
  lemma {:induction false} CellIsPairCount(log: seq<Row>, a: int, n: int)
    ensures Cell(log, a, n) == PairCount(log, a, n)
  {
    if |log| > 0 {
      var k := |log| - 1;
      var last := log[k];
      CellIsPairCount(log[..k], a, n);
      if last.arm == a {
        var init := SimColumn(ArmRows(log[..k], a));
        assert ArmRows(log, a) == ArmRows(log[..k], a) + [last];
        assert SimColumn(ArmRows(log, a)) == init + [last.sim];
        CountAppend(init, last.sim, n);
      } else {
        assert ArmRows(log, a) == ArmRows(log[..k], a);
      }
    }
  }

  /** Counting the same rows inside simulation `n`'s choices gives the
      row-by-row count too: the two groupings agree. */
  lemma {:induction false} SimCountIsPairCount(log: seq<Row>, a: int, n: nat)
    ensures Count(SimArms(log, n), a) == PairCount(log, a, n)
  {
    if |log| > 0 {
      var k := |log| - 1;
      var last := log[k];
      SimCountIsPairCount(log[..k], a, n);
      SimRowsAppend(log[..k], last, n);
      assert log[..k] + [last] == log;
      if last.sim == n {
        assert SimArms(log, n) == SimArms(log[..k], n) + [last.arm];
        CountAppend(SimArms(log[..k], n), last.arm, a);
      } else {
        assert SimRows(log, n) == SimRows(log[..k], n);
      }
    }
  }

  /** The counts simulation `n` contributes, one per arm it chose, in arm
      order. */
  function SimCounts(log: seq<Row>, n: nat): (c: seq<nat>)
    ensures |c| == |Unique(SimArms(log, n))|
  {
    var u := Unique(SimArms(log, n));
    seq(|u|, i requires 0 <= i < |u| => Cell(log, u[i], n))
  }

  /** A simulation's counts over the arms it chose add up to its number of
      rows: every row falls in exactly one (arm, simulation) group. */
  lemma SimCountsSumToRows(log: seq<Row>, n: nat)
    ensures SumNat(SimCounts(log, n)) == |SimRows(log, n)|
  {
    var s := SimArms(log, n);
    var u := Unique(s);
    forall i | 0 <= i < |u|
      ensures SimCounts(log, n)[i] == CountsOf(u, s)[i]
    {
      CellIsPairCount(log, u[i], n);
      SimCountIsPairCount(log, u[i], n);
    }
    assert SimCounts(log, n) == CountsOf(u, s);
    SumNatCountsOf(u, s);
    UniqueCountsSum(s);
  }

  /** The counts of arm `a` over the simulations that chose it: the array
      `allcounts.groupby('chosen_arm')['reward'].apply(np.array)` holds for
      `a`, and whose mean and standard deviation the bar plot shows. */
  function SelectionCounts(log: seq<Row>, a: int): (c: seq<nat>)
    ensures |c| == |ArmSims(log, a)|
  {
    CountsOf(ArmSims(log, a), SimColumn(ArmRows(log, a)))
  }

  /** The simulations of `ArmSims` are exactly those that chose `a`. */
  lemma ArmSimsMembers(log: seq<Row>, a: int, n: int)
    ensures n in ArmSims(log, a) <==> PairCount(log, a, n) > 0
  {
    CellIsPairCount(log, a, n);
  }

  /** The counts of arm `a` add up to the number of times it was chosen in
      the whole log. */
  lemma SelectionCountsSumToPulls(log: seq<Row>, a: int)
    ensures SumNat(SelectionCounts(log, a)) == Count(Arms(log), a)
  {
    var col := SimColumn(ArmRows(log, a));
    SumNatCountsOf(Unique(col), col);
    UniqueCountsSum(col);
    ArmRowsCount(log, a);
  }

  /** Every simulation listed for arm `a` chose it at least once. */
  lemma SelectionCountsPositive(log: seq<Row>, a: int)
    ensures forall i :: 0 <= i < |SelectionCounts(log, a)| ==> SelectionCounts(log, a)[i] >= 1
  {
  }

  lemma {:induction false} SumNatAtLeastLength(s: seq<nat>)
    requires forall i :: 0 <= i < |s| ==> s[i] >= 1
    ensures SumNat(s) >= |s|
  {
    if |s| > 0 {
      SumNatAtLeastLength(s[..|s| - 1]);
    }
  }

  /** An arm that was chosen is chosen in at least one simulation. */
  lemma ChosenArmHasSims(log: seq<Row>, a: int)
    requires a in Arms(log)
    ensures |ArmSims(log, a)| > 0
  {
    ArmRowsCount(log, a);
    var col := SimColumn(ArmRows(log, a));
    assert col[0] in Unique(col);
  }

  /** A total divided by a positive count, as `mean` computes it. */
  function Ratio(total: nat, k: nat): (r: real)
    requires k > 0
    ensures r * k as real == total as real
  {
    total as real / k as real
  }

  /** The `('reward', 'mean')` column of `sorted_means` for arm `a`: the
      average of its counts over the simulations that chose it.  The
      simulations that never chose `a` have no cell and do not enter. */
  function MeanSelections(log: seq<Row>, a: int): (m: real)
    requires a in Arms(log)
    ensures 0 < |ArmSims(log, a)| <= Count(Arms(log), a)
    ensures m == Ratio(Count(Arms(log), a), |ArmSims(log, a)|)
    ensures m >= 1.0
  {
    ChosenArmHasSims(log, a);
    SelectionCountsSumToPulls(log, a);
    SelectionCountsPositive(log, a);
    SumNatAtLeastLength(SelectionCounts(log, a));
    RatioAtLeastOne(Count(Arms(log), a), |ArmSims(log, a)|);
    Ratio(SumNat(SelectionCounts(log, a)), |ArmSims(log, a)|)
  }

  /** The mean is the arm's total number of selections divided by the
      number of simulations that chose it, not by the number of
      simulations: the simulations that never chose it are ignored. */
  lemma MeanIgnoresAbsentSims(log: seq<Row>, a: int)
    requires a in Arms(log)
    ensures 0 < |ArmSims(log, a)| <= Count(Arms(log), a)
    ensures MeanSelections(log, a) == Ratio(Count(Arms(log), a), |ArmSims(log, a)|)
  {
    ChosenArmHasSims(log, a);
    SelectionCountsSumToPulls(log, a);
    SumNatAtLeastLength(SelectionCounts(log, a));
  }

  /** Every arm that shows up in the ranking was chosen at least once per
      simulation counted, so its mean count is at least one. */
  lemma MeanAtLeastOne(log: seq<Row>, a: int)
    requires a in Arms(log)
    ensures MeanSelections(log, a) >= 1.0
  {
    MeanIgnoresAbsentSims(log, a);
    RatioAtLeastOne(Count(Arms(log), a), |ArmSims(log, a)|);
  }

  lemma RatioAtLeastOne(total: nat, k: nat)
    requires 0 < k <= total
    ensures Ratio(total, k) >= 1.0
  {
  }

  /** One row of `sorted_means`: an arm and its mean count. */
  datatype ArmMean = ArmMean(arm: int, mean: real)

  /** The unsorted group-by result, one entry per chosen arm in arm order. */
  function ArmMeans(log: seq<Row>): (ms: seq<ArmMean>)
    ensures |ms| == |ChosenArms(log)|
    ensures forall i :: 0 <= i < |ms| ==> ms[i].arm == ChosenArms(log)[i]
  {
    var u := ChosenArms(log);
    seq(|u|, i requires 0 <= i < |u| => ArmMean(u[i], MeanSelections(log, u[i])))
  }

  /** Every entry of `ArmMeans` carries its arm's mean, and every chosen
      arm has an entry. */
  lemma ArmMeansEntries(log: seq<Row>)
    ensures forall e :: e in ArmMeans(log) ==> e.arm in Arms(log) && e.mean == MeanSelections(log, e.arm)
    ensures forall a :: a in Arms(log) ==> ArmMean(a, MeanSelections(log, a)) in ArmMeans(log)
  {
    var u := ChosenArms(log);
    forall a | a in Arms(log)
      ensures ArmMean(a, MeanSelections(log, a)) in ArmMeans(log)
    {
      var i :| 0 <= i < |u| && u[i] == a;
      assert ArmMeans(log)[i] == ArmMean(a, MeanSelections(log, a));
    }
  }

  /** `x` ranks ahead of `y`: a higher mean, or an equal mean and a smaller
      arm index. */
  predicate Before(x: ArmMean, y: ArmMean) {
    x.mean > y.mean || (x.mean == y.mean && x.arm < y.arm)
  }

  /** Sorted by `sort_values(by=('reward', 'mean'), ascending=False)`, with
      ties kept in arm order. */
  ghost predicate Ranked(s: seq<ArmMean>) {
    forall i, j :: 0 <= i < j < |s| ==> Before(s[i], s[j])
  }

  /** No arm occurs twice. */
  ghost predicate DistinctArms(s: seq<ArmMean>) {
    forall i, j :: 0 <= i < j < |s| ==> s[i].arm != s[j].arm
  }

  lemma BeforeTransitive(x: ArmMean, y: ArmMean, z: ArmMean)
    requires Before(x, y) && Before(y, z)
    ensures Before(x, z)
  {
  }

  /** Inserts `x` after every entry that ranks ahead of it. */
  function InsertRanked(s: seq<ArmMean>, x: ArmMean): (r: seq<ArmMean>)
    ensures multiset(r) == multiset(s) + multiset{x}
  {
    if |s| == 0 then [x]
    else if Before(x, s[0]) then [x] + s
    else
      assert s == [s[0]] + s[1..];
      [s[0]] + InsertRanked(s[1..], x)
  }

  lemma {:induction false} InsertKeepsRanked(s: seq<ArmMean>, x: ArmMean)
    requires Ranked(s)
    requires forall e :: e in s ==> e.arm != x.arm
    ensures Ranked(InsertRanked(s, x))
  {
    if |s| > 0 {
      if Before(x, s[0]) {
        forall j | 0 < j < |s| ensures Before(x, s[j]) {
          BeforeTransitive(x, s[0], s[j]);
        }
      } else {
        var rest := InsertRanked(s[1..], x);
        InsertKeepsRanked(s[1..], x);
        forall e | e in rest ensures Before(s[0], e) {
          assert e in multiset(rest);
          if e != x {
            var j :| 0 <= j < |s[1..]| && s[1..][j] == e;
            assert s[j + 1] == e;
          }
        }
      }
    }
  }

  /** Insertion sort by rank: the stable descending sort of the arm-ordered
      group-by result. */
  function SortRanked(s: seq<ArmMean>): (r: seq<ArmMean>)
    requires DistinctArms(s)
    ensures Ranked(r)
    ensures multiset(r) == multiset(s)
  {
    if |s| == 0 then []
    else
      var k := |s| - 1;
      var sorted := SortRanked(s[..k]);
      assert forall e :: e in sorted ==> e.arm != s[k].arm by {
        forall e | e in sorted ensures e.arm != s[k].arm {
          assert e in multiset(s[..k]);
          var i :| 0 <= i < k && s[i] == e;
        }
      }
      assert s == s[..k] + [s[k]];
      InsertKeepsRanked(sorted, s[k]);
      InsertRanked(sorted, s[k])
  }

  /** Python's `s[:k]` end index for a sequence of length `len`: a negative
      `k` counts from the end. */
  function SliceStop(len: nat, k: int): (stop: nat)
    ensures stop <= len
  {
    if k >= 0 then Min(k, len) else if len + k > 0 then len + k else 0
  }

  /** `sorted_means`: every chosen arm with its mean, in rank order. */
  function RankedArmMeans(log: seq<Row>): (r: seq<ArmMean>)
    ensures Ranked(r)
    ensures multiset(r) == multiset(ArmMeans(log))
    ensures |r| == |ChosenArms(log)|
  {
    ChosenArmsDistinct(log);
    var r := SortRanked(ArmMeans(log));
    assert |r| == |multiset(r)|;
    r
  }

  /** `sorted_means[:top_n]`: the `top_n` arms with the highest mean counts. */
  function TopArms(log: seq<Row>, topN: int): (r: seq<ArmMean>)
    ensures |r| == SliceStop(|ChosenArms(log)|, topN)
    ensures Ranked(r)
  {
    var sorted := RankedArmMeans(log);
    sorted[..SliceStop(|sorted|, topN)]
  }

  lemma ChosenArmsDistinct(log: seq<Row>)
    ensures DistinctArms(ArmMeans(log))
  {
  }

  /** Every ranked entry is a chosen arm with its own mean, and no arm is
      listed twice. */
  lemma TopArmsEntries(log: seq<Row>, topN: int)
    ensures forall e :: e in TopArms(log, topN) ==> e.arm in Arms(log) && e.mean == MeanSelections(log, e.arm)
    ensures DistinctArms(TopArms(log, topN))
  {
    var full := RankedArmMeans(log);
    var r := TopArms(log, topN);
    ArmMeansEntries(log);
    forall e | e in r
      ensures e.arm in Arms(log) && e.mean == MeanSelections(log, e.arm)
    {
      assert e in multiset(full);
    }
  }

  /** The ranking keeps the arms with the highest means: an arm left out
      has a mean no higher than any arm kept, and with a `top_n` of at least
      the number of chosen arms every chosen arm is kept. */
  lemma TopArmsAreTop(log: seq<Row>, topN: int, a: int)
    requires a in Arms(log)
    ensures (forall e :: e in TopArms(log, topN) ==> e.arm != a) ==>
              forall e :: e in TopArms(log, topN) ==> MeanSelections(log, a) <= e.mean
    ensures topN >= |ChosenArms(log)| ==> exists e :: e in TopArms(log, topN) && e.arm == a
  {
    var full := RankedArmMeans(log);
    var r := TopArms(log, topN);
    assert r == full[..|r|];
    var x := ArmMean(a, MeanSelections(log, a));
    var j := RankOf(log, a);
    if j < |r| {
      assert r[j] == x;
    } else {
      forall e | e in r
        ensures MeanSelections(log, a) <= e.mean
      {
        var i :| 0 <= i < |r| && r[i] == e;
        assert Before(full[i], full[j]);
      }
    }
  }

  /** Where a chosen arm sits in the ranked table. */
  lemma RankOf(log: seq<Row>, a: int) returns (j: nat)
    requires a in Arms(log)
    ensures j < |RankedArmMeans(log)|
    ensures RankedArmMeans(log)[j] == ArmMean(a, MeanSelections(log, a))
  {
    var full := RankedArmMeans(log);
    ArmMeansEntries(log);
    assert ArmMean(a, MeanSelections(log, a)) in multiset(full);
    j :| 0 <= j < |full| && full[j] == ArmMean(a, MeanSelections(log, a));
  }

  /** `max_horizon / len(arms_dict)`: the count each arm would get if the
      horizon were split evenly over the catalog.  Python's true division
      raises on an empty catalog. */
  function CountBaseline(horizon: nat, catalogSize: nat): (r: Result<real>)
    ensures r.Success? <==> catalogSize > 0
    ensures r.Failure? ==> r.error == EmptyCatalog
    ensures r.Success? ==> r.value == Ratio(horizon, catalogSize)
  {
    if catalogSize == 0 then Failure(EmptyCatalog) else Success(Ratio(horizon, catalogSize))
  }

  /** A simulation that ran the whole horizon makes, per catalog arm, the
      baseline number of selections on average. */
  lemma BaselineIsEvenSplit(log: seq<Row>, n: nat, horizon: nat, catalogSize: nat)
    requires catalogSize > 0
    requires |SimRows(log, n)| == horizon
    ensures CountBaseline(horizon, catalogSize) == Success(Ratio(SumNat(SimCounts(log, n)), catalogSize))
  {
    SimCountsSumToRows(log, n);
  }

  /** `arms_indexes`: the arm indices of the ranked entries.  They are
      `[:top_n]` of the chosen arms, each chosen at least once, none twice,
      in non-increasing order of mean selection count. */
  function TopArmIndexes(log: seq<Row>, topN: int): (idx: seq<int>)
    ensures |idx| == |TopArms(log, topN)| == SliceStop(|ChosenArms(log)|, topN)
    ensures forall i :: 0 <= i < |idx| ==> idx[i] == TopArms(log, topN)[i].arm
    ensures forall i :: 0 <= i < |idx| ==> Count(Arms(log), idx[i]) > 0
    ensures forall i, j :: 0 <= i < j < |idx| ==> idx[i] != idx[j]
    ensures forall i, j :: 0 <= i < j < |idx| ==>
              idx[i] in Arms(log) && idx[j] in Arms(log) && MeanSelections(log, idx[i]) >= MeanSelections(log, idx[j])
  {
    var r := TopArms(log, topN);
    TopArmsEntries(log, topN);
    assert forall i :: 0 <= i < |r| ==> r[i] in r;
    seq(|r|, i requires 0 <= i < |r| => r[i].arm)
  }

  /** The offset a Python position `p` names in a sequence of length `len`:
      a negative position counts from the end. */
  function Position(len: nat, p: int): (i: nat)
    requires -(len as int) <= p < len
    ensures i < len
    ensures p >= 0 ==> i == p
    ensures p < 0 ==> i + (-p) == len
  {
    if p >= 0 then p else len + p
  }

  /** Positional indexing `index[[p0, p1, ...]]`, negative positions
      counting from the end; a position outside raises `IndexError`. */
  function AtPositions(index: seq<int>, positions: seq<int>): (r: Result<seq<int>>)
    ensures r.Success? <==> forall k :: 0 <= k < |positions| ==> -|index| <= positions[k] < |index|
    ensures r.Success? ==> |r.value| == |positions|
    ensures r.Success? ==> forall k :: 0 <= k < |positions| ==> r.value[k] == index[Position(|index|, positions[k])]
  {
    if |positions| == 0 then Success([])
    else
      var p := positions[0];
      if !(-|index| <= p < |index|) then Failure(PositionOutOfRange(p, |index|))
      else
        var rest :- AtPositions(index, positions[1..]);
        Success([index[Position(|index|, p)]] + rest)
  }

  /** The arms whose counts the box plot draws, as written:
      `x.loc[x.index[[int(a) for a in arms_indexes]]]` reads each arm index
      as a position in the arm-ordered index of `x`. */
  function BoxPlotArmsAsWritten(log: seq<Row>, topN: int): (r: Result<seq<int>>)
    ensures r.Success? <==> forall k :: 0 <= k < |TopArmIndexes(log, topN)| ==>
              -|ChosenArms(log)| <= TopArmIndexes(log, topN)[k] < |ChosenArms(log)|
    ensures r.Success? ==> |r.value| == |TopArmIndexes(log, topN)|
    ensures r.Success? ==> forall k :: 0 <= k < |r.value| ==>
              r.value[k] == ChosenArms(log)[Position(|ChosenArms(log)|, TopArmIndexes(log, topN)[k])]
  {
    AtPositions(ChosenArms(log), TopArmIndexes(log, topN))
  }

  /** When the chosen arms are exactly 0, 1, ..., K-1, every arm sits at its
      own position and the positional lookup finds the ranked arms. */
  lemma BoxPlotArmsAgreeWhenDense(log: seq<Row>, topN: int)
    requires forall i :: 0 <= i < |ChosenArms(log)| ==> ChosenArms(log)[i] == i
    ensures BoxPlotArmsAsWritten(log, topN) == Success(TopArmIndexes(log, topN))
  {
    var u := ChosenArms(log);
    var idx := TopArmIndexes(log, topN);
    TopArmsEntries(log, topN);
    forall k | 0 <= k < |idx|
      ensures 0 <= idx[k] < |u|
    {
      assert TopArms(log, topN)[k] in TopArms(log, topN);
      var j :| 0 <= j < |u| && u[j] == idx[k];
    }
    AtOwnPositions(u, idx);
  }

  lemma {:induction false} AtOwnPositions(index: seq<int>, positions: seq<int>)
    requires forall i :: 0 <= i < |index| ==> index[i] == i
    requires forall k :: 0 <= k < |positions| ==> 0 <= positions[k] < |index|
    ensures AtPositions(index, positions) == Success(positions)
  {
    if |positions| > 0 {
      AtOwnPositions(index, positions[1..]);
      assert [positions[0]] + positions[1..] == positions;
    }
  }

  /** One row choosing arm 1: the only chosen arm sits at position 0, so
      the positional lookup of arm 1 raises instead of drawing its counts. */
  lemma BoxPlotArmsAsWrittenFails()
    ensures ChosenArms([Row(0, 0, 1, 0.0)]) == [1]
    ensures TopArmIndexes([Row(0, 0, 1, 0.0)], 5) == [1]
    ensures BoxPlotArmsAsWritten([Row(0, 0, 1, 0.0)], 5) == Failure(PositionOutOfRange(1, 1))
  {
    var log := [Row(0, 0, 1, 0.0)];
    assert Arms(log) == [1];
    assert Unique([1]) == Insert(Unique([]), 1);
    var r := TopArms(log, 5);
    assert |r| == 1;
    TopArmsEntries(log, 5);
    assert r[0] in r;
  }

  /** The boxes the plot evidently means to draw (`x.loc[arms_indexes]`):
      for each ranked arm, its counts over the simulations that chose it. */
  function BoxPlotValues(log: seq<Row>, topN: int): (boxes: seq<seq<nat>>)
    ensures |boxes| == |TopArms(log, topN)|
  {
    var r := TopArms(log, topN);
    seq(|r|, i requires 0 <= i < |r| => SelectionCounts(log, r[i].arm))
  }

  /** Box `i` summarises the same arm as bar `i`: its counts add up to the
      arm's selections and average to the bar's height. */
  lemma BoxesMatchBars(log: seq<Row>, topN: int, i: nat)
    requires i < |TopArms(log, topN)|
    ensures |BoxPlotValues(log, topN)[i]| > 0
    ensures SumNat(BoxPlotValues(log, topN)[i]) == Count(Arms(log), TopArms(log, topN)[i].arm)
    ensures Ratio(SumNat(BoxPlotValues(log, topN)[i]), |BoxPlotValues(log, topN)[i]|) == TopArms(log, topN)[i].mean
  {
    var e := TopArms(log, topN)[i];
    TopArmsEntries(log, topN);
    assert e in TopArms(log, topN);
    ChosenArmHasSims(log, e.arm);
    SelectionCountsSumToPulls(log, e.arm);
  }

  /** What `plot_arm_counts` hands to the plot: the ranked arms with their
      mean counts, their labels, the boxes and the baseline. */
  datatype ArmCountsReport = ArmCountsReport(ranked: seq<ArmMean>, labels: seq<string>,
                                             boxes: seq<seq<nat>>, baseline: real)

  /** `plot_arm_counts` up to the plotting calls, with the boxes looked up
      by arm label.  It raises on an empty log, on a ranked arm missing from
      the catalog and on an empty catalog, in that order. */
  function ArmCountsPlot(log: seq<Row>, catalog: ArmCatalog, topN: int): (r: Result<ArmCountsReport>)
    ensures |log| == 0 ==> r == Failure(EmptyLog)
    ensures r.Success? <==>
              |log| > 0
              && (forall i :: 0 <= i < |TopArms(log, topN)| ==> 0 <= TopArms(log, topN)[i].arm < |catalog|)
              && |catalog| > 0
    ensures r.Success? ==>
              && r.value.ranked == TopArms(log, topN)
              && |r.value.labels| == |r.value.ranked| == |r.value.boxes|
              && (forall i :: 0 <= i < |r.value.ranked| ==>
                    Label(catalog, r.value.ranked[i].arm) == Success(r.value.labels[i]))
              && r.value.baseline == Ratio(LogShape(log).value.horizon, |catalog|)
              && r.value.boxes == BoxPlotValues(log, topN)
              && (forall i :: 0 <= i < |r.value.boxes| ==>
                    |r.value.boxes[i]| > 0
                    && Ratio(SumNat(r.value.boxes[i]), |r.value.boxes[i]|) == r.value.ranked[i].mean)
  {
    forall i | 0 <= i < |TopArms(log, topN)|
      ensures |BoxPlotValues(log, topN)[i]| > 0
      ensures Ratio(SumNat(BoxPlotValues(log, topN)[i]), |BoxPlotValues(log, topN)[i]|) == TopArms(log, topN)[i].mean
    {
      BoxesMatchBars(log, topN, i);
    }
    var shape :- LogShape(log);
    var ranked := TopArms(log, topN);
    var labels :- Labels(catalog, TopArmIndexes(log, topN));
    var baseline :- CountBaseline(shape.horizon, |catalog|);
    Success(ArmCountsReport(ranked, labels, BoxPlotValues(log, topN), baseline))
  }
}
