/** The running best arm of one simulation: at every round `t`, the arm
    judged best from the rows `0..t` alone, either because it was chosen most
    often (the bandit-algorithm curves) or because its mean observed reward
    is highest (the pure-exploration curve).  Ties are broken by
    `np.random.choice` over the tied arms. */
module BestArm {
  import opened Seqs
  import opened TrialLog

  /** The random source behind `np.random.choice`.  Given the simulation,
      the round and the number of tied arms it returns a draw, which is
      reduced modulo the tie count to a position in the tie list.  Every
      realisation of the generator that draws once per (simulation, round)
      is one `Chooser`. */
  type Chooser = (nat, nat, nat) -> nat

  /** The draw simulation `sim` makes at round `t` among `k` tied arms. */
  function Draw(choose: Chooser, sim: nat, t: nat, k: nat): nat {
    choose(sim, t, k)
  }

  /** The tied arm the draw lands on. */
  function Pick(ties: seq<int>, draw: nat): (a: int)
    requires |ties| > 0
    ensures a in ties
  {
    ties[draw % |ties|]
  }

  /** A draw below the tie count picks the tied arm at that position. */
  lemma PickSmallDraw(ties: seq<int>, draw: nat)
    requires draw < |ties|
    ensures Pick(ties, draw) == ties[draw]
  {
  }

  /** How an arm is scored from the rows seen so far. */
  datatype Criterion =
    /** `np.unique(data[:t+1], return_counts=True)`: times chosen. */
    | SelectionCount
    /** `data[:t+1].groupby(by='chosen_arm').mean()`: mean observed reward. */
    | MeanReward

  /** Number of rows in which arm `a` was chosen. */
  function Pulls(rows: seq<Row>, a: int): nat {
    Count(Arms(rows), a)
  }

  /** Total reward observed for arm `a`. */
  function RewardSum(rows: seq<Row>, a: int): real {
    if |rows| == 0 then 0.0
    else
      var last := rows[|rows| - 1];
      RewardSum(rows[..|rows| - 1], a) + (if last.arm == a then last.reward else 0.0)
  }

  /** The score of an arm that was chosen at least once.  An arm never
      chosen has no group in the group-by and no score. */
  function Score(crit: Criterion, rows: seq<Row>, a: int): real
    requires a in Arms(rows)
  {
    match crit
    case SelectionCount => Pulls(rows, a) as real
    case MeanReward => RewardSum(rows, a) / (Pulls(rows, a) as real)
  }

  /** `a` occurs in `arms` and no value occurs more often. */
  ghost predicate MostChosen(arms: seq<int>, a: int) {
    a in arms && forall b :: Count(arms, b) <= Count(arms, a)
  }

  /** `a` was chosen in `rows` and no chosen arm scores higher. */
  ghost predicate TopScore(crit: Criterion, rows: seq<Row>, a: int) {
    a in Arms(rows) && forall b :: b in Arms(rows) ==> Score(crit, rows, b) <= Score(crit, rows, a)
  }

  /** The scores of the distinct arms `u`, aligned with them. */
  function ScoresOf(crit: Criterion, u: seq<int>, rows: seq<Row>): (sc: seq<real>)
    requires forall i :: 0 <= i < |u| ==> u[i] in Arms(rows)
    ensures |sc| == |u|
    ensures forall i :: 0 <= i < |u| ==> sc[i] == Score(crit, rows, u[i])
  {
    seq(|u|, i requires 0 <= i < |u| => Score(crit, rows, u[i]))
  }

  /** The arms of `u` scoring exactly `m`, in the order of `u`. */
  function TiesOf(crit: Criterion, u: seq<int>, rows: seq<Row>, m: real): (t: seq<int>)
    requires forall x :: x in u ==> x in Arms(rows)
    ensures forall x :: x in t <==> x in u && Score(crit, rows, x) == m
    ensures StrictlyIncreasing(u) ==> StrictlyIncreasing(t)
    ensures |t| <= |u|
  {
    if |u| == 0 then []
    else
      assert forall x :: x in u <==> x == u[0] || x in u[1..];
      var rest := TiesOf(crit, u[1..], rows, m);
      assert StrictlyIncreasing(u) ==> StrictlyIncreasing(u[1..]);
      if Score(crit, rows, u[0]) == m then
        assert StrictlyIncreasing(u) ==> StrictlyIncreasing([u[0]] + rest) by {
          if StrictlyIncreasing(u) {
            assert forall x :: x in rest ==> u[0] < x;
            PrependIncreasing(u[0], rest);
          }
        }
        [u[0]] + rest
      else rest
  }

  lemma PrependIncreasing(x: int, s: seq<int>)
    requires StrictlyIncreasing(s)
    requires forall y :: y in s ==> x < y
    ensures StrictlyIncreasing([x] + s)
  {
    var r := [x] + s;
    forall i, j | 0 <= i < j < |r| ensures r[i] < r[j] {
      if i == 0 {
        assert r[j] == s[j - 1];
        assert s[j - 1] in s;
      } else {
        assert r[i] == s[i - 1] && r[j] == s[j - 1];
      }
    }
  }

  /** The arms tied for the top score, in increasing arm order:
      `u[np.flatnonzero(counts == max(counts))]` for the count criterion and
      `mean.index[mean['reward'] == mean['reward'].values.max()]` for the
      mean-reward criterion. */
  function Ties(crit: Criterion, rows: seq<Row>): (ties: seq<int>)
    requires |rows| > 0
    ensures 0 < |ties| <= |rows|
    ensures StrictlyIncreasing(ties)
    ensures forall a :: a in ties ==> a in Arms(rows)
  {
    var u := Unique(Arms(rows));
    assert Arms(rows)[0] in u;
    var scores := ScoresOf(crit, u, rows);
    var m := MaxReal(scores);
    var ties := TiesOf(crit, u, rows, m);
    var k :| 0 <= k < |u| && scores[k] == m;
    assert u[k] in ties;
    ties
  }

  /** The tie list is in increasing arm order, as the random draw indexes it. */
  lemma TiesIncreasing(crit: Criterion, rows: seq<Row>)
    requires |rows| > 0
    ensures StrictlyIncreasing(Ties(crit, rows))
  {
  }

  /** An arm is in the tie list exactly when it has the top score. */
  lemma TiesAreTopScores(crit: Criterion, rows: seq<Row>, a: int)
    requires |rows| > 0
    ensures a in Ties(crit, rows) <==> TopScore(crit, rows, a)
  {
    var u := Unique(Arms(rows));
    assert Arms(rows)[0] in u;
    var scores := ScoresOf(crit, u, rows);
    var m := MaxReal(scores);
    assert Ties(crit, rows) == TiesOf(crit, u, rows, m);
    if a in Ties(crit, rows) {
      forall b | b in Arms(rows)
        ensures Score(crit, rows, b) <= Score(crit, rows, a)
      {
        var i :| 0 <= i < |u| && u[i] == b;
      }
    }
    if TopScore(crit, rows, a) {
      var i :| 0 <= i < |u| && scores[i] == m;
      assert Score(crit, rows, u[i]) <= Score(crit, rows, a);
      var j :| 0 <= j < |u| && u[j] == a;
    }
  }

  /** The best arm after `rows` under `crit`, given the draw that breaks a tie. */
  function Best(crit: Criterion, rows: seq<Row>, draw: nat): (a: int)
    requires |rows| > 0
    ensures a in Ties(crit, rows)
  {
    Pick(Ties(crit, rows), draw)
  }

  /** The `best_arms[n, :]` loop for simulation `sim` whose rows are `rows`:
      round `t` rescores the arms over `rows[..t + 1]` and draws among the
      tied arms. */
  function RunningBest(crit: Criterion, rows: seq<Row>, sim: nat, choose: Chooser): (best: seq<int>)
    ensures |best| == |rows|
  {
    seq(|rows|, t requires 0 <= t < |rows| =>
      Best(crit, rows[..t + 1], Draw(choose, sim, t, |Ties(crit, rows[..t + 1])|)))
  }

  /** The best arm at round `t` depends only on `rows[..t + 1]`: running the
      criterion on a prefix of the rows gives the prefix of the result. */
  lemma RunningBestPrefix(crit: Criterion, rows: seq<Row>, sim: nat, choose: Chooser, m: nat)
    requires m <= |rows|
    ensures RunningBest(crit, rows[..m], sim, choose) == RunningBest(crit, rows, sim, choose)[..m]
  {
    var cut, full := RunningBest(crit, rows[..m], sim, choose), RunningBest(crit, rows, sim, choose);
    forall t | 0 <= t < m
      ensures cut[t] == full[t]
    {
      assert rows[..m][..t + 1] == rows[..t + 1];
      RunningBestAt(crit, rows[..m], sim, choose, t);
      RunningBestAt(crit, rows, sim, choose, t);
    }
    assert cut == full[..m];
  }

  /** Entry `t` of the running best is the best arm of the rows
      `rows[..t + 1]` under the draw of round `t`. */
  lemma RunningBestAt(crit: Criterion, rows: seq<Row>, sim: nat, choose: Chooser, t: nat)
    requires t < |rows|
    ensures RunningBest(crit, rows, sim, choose)[t]
            == Best(crit, rows[..t + 1], Draw(choose, sim, t, |Ties(crit, rows[..t + 1])|))
  {
  }

  /** After a single row the only arm seen is the only tied arm. */
  lemma OnlyArmSoFar(crit: Criterion, rows: seq<Row>)
    requires |rows| == 1
    ensures Ties(crit, rows) == [rows[0].arm]
  {
    var ties := Ties(crit, rows);
    var a := rows[0].arm;
    assert Arms(rows) == [a];
    TiesAreTopScores(crit, rows, ties[0]);
    TiesAreTopScores(crit, rows, a);
  }

  /** The arm reported at round `t` was chosen in the first `t + 1` rows and
      no arm chosen there scores higher; arms never chosen are never
      reported; at round 0 it is the first row's arm. */
  lemma RunningBestIsTopScore(crit: Criterion, rows: seq<Row>, sim: nat, choose: Chooser, t: nat)
    requires t < |rows|
    ensures TopScore(crit, rows[..t + 1], RunningBest(crit, rows, sim, choose)[t])
    ensures t == 0 ==> RunningBest(crit, rows, sim, choose)[t] == rows[0].arm
  {
    RunningBestAt(crit, rows, sim, choose, t);
    TiesAreTopScores(crit, rows[..t + 1], RunningBest(crit, rows, sim, choose)[t]);
    if t == 0 {
      OnlyArmSoFar(crit, rows[..1]);
    }
  }

  /** Count criterion in the source's terms: the reported arm occurs in the
      prefix and no arm at all occurs more often there. */
  lemma RunningBestByCountIsMostChosen(rows: seq<Row>, sim: nat, choose: Chooser, t: nat)
    requires t < |rows|
    ensures MostChosen(Arms(rows[..t + 1]), RunningBest(SelectionCount, rows, sim, choose)[t])
  {
    RunningBestIsTopScore(SelectionCount, rows, sim, choose, t);
    var arms := Arms(rows[..t + 1]);
    var a := RunningBest(SelectionCount, rows, sim, choose)[t];
    forall b ensures Count(arms, b) <= Count(arms, a) {
      if b in arms {
        assert Score(SelectionCount, rows[..t + 1], b) <= Score(SelectionCount, rows[..t + 1], a);
      }
    }
  }

  /** Mean-reward criterion in the source's terms: the reported arm was
      chosen in the prefix and its mean reward there is at least the mean
      reward of every arm chosen there. */
  lemma RunningBestByMeanIsHighest(rows: seq<Row>, sim: nat, choose: Chooser, t: nat, b: int)
    requires t < |rows|
    requires b in Arms(rows[..t + 1])
    ensures RunningBest(MeanReward, rows, sim, choose)[t] in Arms(rows[..t + 1])
    ensures RewardSum(rows[..t + 1], b) / (Pulls(rows[..t + 1], b) as real)
            <= RewardSum(rows[..t + 1], RunningBest(MeanReward, rows, sim, choose)[t])
               / (Pulls(rows[..t + 1], RunningBest(MeanReward, rows, sim, choose)[t]) as real)
  {
    RunningBestIsTopScore(MeanReward, rows, sim, choose, t);
  }

  /** The tie-break favours no arm: whichever arm has the top score at round
      `t`, some realisation of the random source reports it. */
  lemma AnyTiedArmCanBeChosen(crit: Criterion, rows: seq<Row>, sim: nat, t: nat, a: int) returns (choose: Chooser)
    requires t < |rows|
    requires TopScore(crit, rows[..t + 1], a)
    ensures RunningBest(crit, rows, sim, choose)[t] == a
  {
    var prefix := rows[..t + 1];
    var ties := Ties(crit, prefix);
    TiesAreTopScores(crit, prefix, a);
    var i :| 0 <= i < |ties| && ties[i] == a;
    choose := (_, _, _) => i;
    RunningBestAt(crit, rows, sim, choose, t);
    assert Draw(choose, sim, t, |ties|) == i;
    PickSmallDraw(ties, i);
  }
}
