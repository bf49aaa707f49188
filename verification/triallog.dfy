/** The trial log a bandit simulation writes (`log.csv`) and the metadata the
    evaluation code derives from it: the number of simulations, the time
    horizon, and each simulation's rows in log order. */
module TrialLog {
  import opened Results
  import opened Seqs

  /** One row of the log: the columns `num_sims`, `horizon`, `chosen_arm`
      and `reward`.  Arm indices are integers of the arm catalog. */
  datatype Row = Row(sim: nat, round: nat, arm: int, reward: real)

  /** `n_simulations` and `time_horizon`, the sizes of every result matrix. */
  datatype Shape = Shape(simulations: nat, horizon: nat)

  function SimColumn(log: seq<Row>): (c: seq<int>)
    ensures |c| == |log|
    ensures forall i :: 0 <= i < |log| ==> c[i] == log[i].sim
  {
    seq(|log|, i requires 0 <= i < |log| => log[i].sim)
  }

  function RoundColumn(log: seq<Row>): (c: seq<int>)
    ensures |c| == |log|
    ensures forall i :: 0 <= i < |log| ==> c[i] == log[i].round
  {
    seq(|log|, i requires 0 <= i < |log| => log[i].round)
  }

  /** `int(np.max(df['num_sims'])) + 1` and `int(np.max(df['horizon'])) + 1`;
      `np.max` raises on a log without rows. */
  function LogShape(log: seq<Row>): (r: Result<Shape>)
    ensures r.Failure? <==> |log| == 0
    ensures r.Failure? ==> r.error == EmptyLog
    ensures r.Success? ==>
              && (forall i :: 0 <= i < |log| ==> log[i].sim < r.value.simulations && log[i].round < r.value.horizon)
              && (exists i :: 0 <= i < |log| && log[i].sim + 1 == r.value.simulations)
              && (exists i :: 0 <= i < |log| && log[i].round + 1 == r.value.horizon)
  {
    if |log| == 0 then Failure(EmptyLog)
    else
      var maxSim := MaxInt(SimColumn(log));
      var maxRound := MaxInt(RoundColumn(log));
      assert SimColumn(log)[0] >= 0 && RoundColumn(log)[0] >= 0;
      Success(Shape(maxSim + 1, maxRound + 1))
  }

  /** The rows of simulation `n`, in the order they appear in the log
      (`df.loc[df['num_sims'] == n]`). */
  function SimRows(log: seq<Row>, n: nat): (rows: seq<Row>)
    ensures |rows| <= |log|
    ensures forall i :: 0 <= i < |rows| ==> rows[i].sim == n
  {
    if |log| == 0 then []
    else
      var init := log[..|log| - 1];
      var last := log[|log| - 1];
      assert log == init + [last];
      SimRows(init, n) + (if last.sim == n then [last] else [])
  }

  /** The `chosen_arm` column of a sequence of rows. */
  function Arms(rows: seq<Row>): (arms: seq<int>)
    ensures |arms| == |rows|
    ensures forall i :: 0 <= i < |rows| ==> arms[i] == rows[i].arm
  {
    seq(|rows|, i requires 0 <= i < |rows| => rows[i].arm)
  }

  /** Simulation `n`'s chosen arms in log order: the `data` array of the
      best-arm loops. */
  function SimArms(log: seq<Row>, n: nat): seq<int> {
    Arms(SimRows(log, n))
  }

  /** A log in which every simulation's rows carry the rounds 0, 1, 2, ...
      in the order they appear: the dense-index assumption the evaluation
      code relies on without checking it. */
  ghost predicate WellOrdered(log: seq<Row>) {
    if |log| == 0 then true
    else
      var init := log[..|log| - 1];
      var last := log[|log| - 1];
      WellOrdered(init) && last.round == |SimRows(init, last.sim)|
  }

  /** The rows of the log that fall before round `m`. */
  function TruncateLog(log: seq<Row>, m: nat): (t: seq<Row>)
    ensures |t| <= |log|
  {
    if |log| == 0 then []
    else
      var init := log[..|log| - 1];
      var last := log[|log| - 1];
      assert log == init + [last];
      TruncateLog(init, m) + (if last.round < m then [last] else [])
  }

  /** A simulation's rows are exactly the log's rows carrying its id. */
  lemma {:induction false} SimRowsMembers(log: seq<Row>, n: nat)
    ensures forall x :: x in SimRows(log, n) <==> x in log && x.sim == n
  {
    if |log| > 0 {
      var init := log[..|log| - 1];
      assert log == init + [log[|log| - 1]];
      SimRowsMembers(init, n);
    }
  }

  /** A simulation has as many rows as its id occurs in the `num_sims`
      column. */
  lemma {:induction false} SimRowsCounts(log: seq<Row>)
    ensures forall n: nat :: |SimRows(log, n)| == Count(SimColumn(log), n)
  {
    if |log| > 0 {
      var init := log[..|log| - 1];
      SimRowsCounts(init);
      assert SimColumn(log)[..|log| - 1] == SimColumn(init);
    }
  }

  /** Simulation `n`'s choices are exactly the arms of the log rows carrying
      id `n`. */
  lemma SimArmsMembers(log: seq<Row>)
    ensures forall n: nat, a :: a in SimArms(log, n) <==>
              exists i :: 0 <= i < |log| && log[i].sim == n && log[i].arm == a
  {
    forall n: nat, a
      ensures a in SimArms(log, n) <==> exists i :: 0 <= i < |log| && log[i].sim == n && log[i].arm == a
    {
      var rows := SimRows(log, n);
      SimRowsMembers(log, n);
      if a in SimArms(log, n) {
        var j :| 0 <= j < |rows| && Arms(rows)[j] == a;
        assert rows[j] in rows;
        var i :| 0 <= i < |log| && log[i] == rows[j];
      }
      if exists i :: 0 <= i < |log| && log[i].sim == n && log[i].arm == a {
        var i :| 0 <= i < |log| && log[i].sim == n && log[i].arm == a;
        assert log[i] in rows;
        var j :| 0 <= j < |rows| && rows[j] == log[i];
        assert Arms(rows)[j] == a;
      }
    }
  }

  /** A truncated log holds exactly the rows before round `m`. */
  lemma {:induction false} TruncateMembers(log: seq<Row>, m: nat)
    ensures forall x :: x in TruncateLog(log, m) <==> x in log && x.round < m
  {
    if |log| > 0 {
      var init := log[..|log| - 1];
      assert log == init + [log[|log| - 1]];
      TruncateMembers(init, m);
    }
  }

  lemma SimRowsAppend(log: seq<Row>, r: Row, n: nat)
    ensures SimRows(log + [r], n) == SimRows(log, n) + (if r.sim == n then [r] else [])
  {
    assert (log + [r])[..|log|] == log;
  }

  lemma TruncateAppend(log: seq<Row>, r: Row, m: nat)
    ensures TruncateLog(log + [r], m) == TruncateLog(log, m) + (if r.round < m then [r] else [])
  {
    assert (log + [r])[..|log|] == log;
  }

  /** In a well-ordered log the j-th row of a simulation is its round j. */
  lemma {:induction false} WellOrderedRounds(log: seq<Row>, n: nat)
    requires WellOrdered(log)
    ensures forall j :: 0 <= j < |SimRows(log, n)| ==> SimRows(log, n)[j].round == j
  {
    if |log| > 0 {
      var init := log[..|log| - 1];
      var last := log[|log| - 1];
      assert log == init + [last];
      WellOrderedRounds(init, n);
      SimRowsAppend(init, last, n);
    }
  }

  /** Keeping the rows before round `m` keeps exactly the first `m` rows of
      every simulation. */
  lemma {:induction false} TruncateSimRows(log: seq<Row>, m: nat, n: nat)
    requires WellOrdered(log)
    ensures SimRows(TruncateLog(log, m), n) == SimRows(log, n)[..Min(m, |SimRows(log, n)|)]
  {
    if |log| > 0 {
      var init := log[..|log| - 1];
      var last := log[|log| - 1];
      assert log == init + [last];
      TruncateSimRows(init, m, n);
      var t := TruncateLog(init, m);
      var s := SimRows(init, n);
      assert IH: SimRows(t, n) == s[..Min(m, |s|)];
      SimRowsAppend(init, last, n);
      TruncateAppend(init, last, m);
      if last.sim == n {
        TruncateStep(s, t, last, m, n);
      } else {
        assert SimRows(log, n) == s;
        if last.round < m {
          SimRowsAppend(t, last, n);
          assert TruncateLog(log, m) == t + [last];
        } else {
          assert TruncateLog(log, m) == t + [];
          assert t + [] == t;
        }
      }
    }
  }

  lemma TruncateStep(s: seq<Row>, t: seq<Row>, last: Row, m: nat, n: nat)
    requires last.sim == n && last.round == |s|
    requires SimRows(t, n) == s[..Min(m, |s|)]
    ensures SimRows(t + (if last.round < m then [last] else []), n) == (s + [last])[..Min(m, |s| + 1)]
  {
    if last.round < m {
      assert Min(m, |s| + 1) == |s| + 1 && Min(m, |s|) == |s|;
      SimRowsAppend(t, last, n);
      assert (s + [last])[..|s| + 1] == s + [last];
      assert s[..|s|] == s;
    } else {
      assert Min(m, |s| + 1) == m && Min(m, |s|) == m;
      assert (s + [last])[..m] == s[..m];
      assert [] + t == t;
      assert t + [] == t;
    }
  }

  /** In a well-ordered log no simulation has more rows than the horizon, so
      the best-arm loops never index past the end of a matrix row. */
  lemma SimRowsWithinHorizon(log: seq<Row>, shape: Shape, n: nat)
    requires WellOrdered(log)
    requires LogShape(log) == Success(shape)
    ensures |SimRows(log, n)| <= shape.horizon
  {
    var rows := SimRows(log, n);
    if |rows| > 0 {
      WellOrderedRounds(log, n);
      SimRowsMembers(log, n);
      var x := rows[|rows| - 1];
      assert x in rows;
      var i :| 0 <= i < |log| && log[i] == x;
      assert x.round == |rows| - 1;
    }
  }

  /** The shape is pinned down by bounds on every row and one row reaching
      each bound. */
  lemma ShapeFromBounds(log: seq<Row>, s: nat, h: nat, top: Row, last: Row)
    requires forall x :: x in log ==> x.sim < s && x.round < h
    requires top in log && top.sim + 1 == s
    requires last in log && last.round + 1 == h
    ensures LogShape(log) == Success(Shape(s, h))
  {
    var r := LogShape(log);
    var a :| 0 <= a < |log| && log[a].sim + 1 == r.value.simulations;
    var b :| 0 <= b < |log| && log[b].round + 1 == r.value.horizon;
    assert log[a] in log && log[b] in log;
  }

  /** Truncating a well-ordered log before round `m` (within the horizon)
      leaves the number of simulations alone and cuts the horizon to `m`. */
  lemma TruncatedShape(log: seq<Row>, shape: Shape, m: nat)
    requires WellOrdered(log)
    requires LogShape(log) == Success(shape)
    requires 0 < m <= shape.horizon
    ensures LogShape(TruncateLog(log, m)) == Success(Shape(shape.simulations, m))
  {
    var t := TruncateLog(log, m);
    TruncateMembers(log, m);
    // the last simulation keeps its round-0 row
    var i :| 0 <= i < |log| && log[i].sim + 1 == shape.simulations;
    var first := FirstRowOfRound(log, log[i], 0);
    // the simulation that reaches the last round keeps its row of round m - 1
    var k :| 0 <= k < |log| && log[k].round + 1 == shape.horizon;
    var late := FirstRowOfRound(log, log[k], m - 1);
    forall x | x in t
      ensures x.sim < shape.simulations && x.round < m
    {
      var j :| 0 <= j < |log| && log[j] == x;
    }
    ShapeFromBounds(t, shape.simulations, m, first, late);
  }

  /** In a well-ordered log, a simulation that reached some round has a row
      for every earlier round. */
  lemma FirstRowOfRound(log: seq<Row>, x: Row, j: nat) returns (y: Row)
    requires WellOrdered(log)
    requires x in log
    requires j <= x.round
    ensures y in log && y.sim == x.sim && y.round == j
  {
    var rows := SimRows(log, x.sim);
    SimRowsMembers(log, x.sim);
    WellOrderedRounds(log, x.sim);
    var p :| 0 <= p < |rows| && rows[p] == x;
    y := rows[j];
    assert y in rows;
  }
}
