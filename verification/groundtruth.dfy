/** The true mean yield of each arm of interest, read from the ground-truth
    table (`calculate_true_and_etc_average`): yields given as percentages are
    rescaled, the table columns holding the arm's labels are found from one
    example arm, every row is keyed by the tuple of those columns, and the
    yields of each requested arm are averaged. */
module GroundTruth {
  import opened Results
  import opened Seqs
  import opened Catalog

  /** The ground-truth table: the label columns (each holding one string
      per row) and the `yield` column. */
  datatype Table = Table(columns: seq<seq<string>>, yieldCol: seq<real>)

  /** Every column has one entry per row, as in any data frame. */
  ghost predicate WellFormed(t: Table) {
    forall c :: 0 <= c < |t.columns| ==> |t.columns[c]| == |t.yieldCol|
  }

  /** `if ground_truth['yield'].max() > 2: ... .apply(scaler)`: yields are
      taken to be percentages when any exceeds 2, and then every yield is
      passed through `scaler`.  An empty column has no maximum above 2. */
  function Rescale(t: Table, scaler: real -> real): (r: Table)
    ensures r.columns == t.columns && |r.yieldCol| == |t.yieldCol|
    ensures (exists i :: 0 <= i < |t.yieldCol| && t.yieldCol[i] > 2.0) ==>
              forall i :: 0 <= i < |t.yieldCol| ==> r.yieldCol[i] == scaler(t.yieldCol[i])
    ensures (forall i :: 0 <= i < |t.yieldCol| ==> t.yieldCol[i] <= 2.0) ==> r == t
  {
    if |t.yieldCol| > 0 && MaxReal(t.yieldCol) > 2.0 then
      Table(t.columns, seq(|t.yieldCol|, i requires 0 <= i < |t.yieldCol| => scaler(t.yieldCol[i])))
    else t
  }

  /** `ground_truth.columns[(ground_truth == e).any()]`: the positions of
      the columns that hold `e` in some row, in column order. */
  function MatchingColumns(columns: seq<seq<string>>, e: string): (cs: seq<nat>)
    ensures forall k :: 0 <= k < |cs| ==> cs[k] < |columns| && e in columns[cs[k]]
    ensures forall c :: 0 <= c < |columns| && e in columns[c] ==> c in cs
    ensures forall j, k :: 0 <= j < k < |cs| ==> cs[j] < cs[k]
  {
    if |columns| == 0 then []
    else
      var k := |columns| - 1;
      MatchingColumns(columns[..k], e) + (if e in columns[k] then [k] else [])
  }

  /** The column holding `e`, when exactly one does. */
  ghost predicate UniqueColumn(columns: seq<seq<string>>, e: string, c: nat) {
    c < |columns| && e in columns[c] && forall d :: 0 <= d < |columns| && d != c ==> e !in columns[d]
  }

  /** The loop `for e in example: ... assert (len(l) == 1)`: the column of
      each label of the example arm, failing at the first label found in
      no column or in several. */
  function ResolveColumns(t: Table, example: Arm): (r: Result<seq<nat>>)
    ensures r.Success? <==> forall k :: 0 <= k < |example| ==> |MatchingColumns(t.columns, example[k])| == 1
    ensures r.Success? ==> |r.value| == |example|
    ensures r.Success? ==> forall k :: 0 <= k < |example| ==> UniqueColumn(t.columns, example[k], r.value[k])
  {
    if |example| == 0 then Success([])
    else
      var k := |example| - 1;
      var init := ResolveColumns(t, example[..k]);
      var l := MatchingColumns(t.columns, example[k]);
      assert forall j :: 0 <= j < k ==> example[..k][j] == example[j];
      if init.Failure? then Failure(init.error)
      else if |l| != 1 then Failure(ColumnMatch(example[k], |l|))
      else
        SingleMatchIsUnique(t.columns, example[k]);
        Success(init.value + [l[0]])
  }

  /** The assertion that fails is the one of the first label not found in
      exactly one column, and it reports how many columns hold that label. */
  lemma {:induction false} ResolveColumnsFailsAtFirst(t: Table, example: Arm)
    requires ResolveColumns(t, example).Failure?
    ensures exists k :: FirstUnresolved(t.columns, example, k)
              && ResolveColumns(t, example).error == ColumnMatch(example[k], |MatchingColumns(t.columns, example[k])|)
  {
    var k := |example| - 1;
    var init := ResolveColumns(t, example[..k]);
    if init.Failure? {
      ResolveColumnsFailsAtFirst(t, example[..k]);
      var i :| FirstUnresolved(t.columns, example[..k], i)
               && init.error == ColumnMatch(example[..k][i], |MatchingColumns(t.columns, example[..k][i])|);
      assert ResolveColumns(t, example).error == init.error;
      assert FirstUnresolved(t.columns, example, i) by {
        assert forall j :: 0 <= j <= i ==> example[..k][j] == example[j];
      }
    } else {
      assert forall j :: 0 <= j < k ==> example[..k][j] == example[j];
      assert FirstUnresolved(t.columns, example, k);
    }
  }

  /** Label `k` is the first of `example` not found in exactly one column. */
  ghost predicate FirstUnresolved(columns: seq<seq<string>>, example: Arm, k: int) {
    && 0 <= k < |example|
    && |MatchingColumns(columns, example[k])| != 1
    && forall j :: 0 <= j < k ==> |MatchingColumns(columns, example[j])| == 1
  }

  lemma SingleMatchIsUnique(columns: seq<seq<string>>, e: string)
    requires |MatchingColumns(columns, e)| == 1
    ensures UniqueColumn(columns, e, MatchingColumns(columns, e)[0])
  {
  }

  /** `list(zip(*[ground_truth[c] for c in cols]))`: each row's key, the
      tuple of its entries in the resolved columns. */
  function Keys(t: Table, cols: seq<nat>): (keys: seq<Arm>)
    requires WellFormed(t)
    requires forall k :: 0 <= k < |cols| ==> cols[k] < |t.columns|
    ensures |keys| == |t.yieldCol|
    ensures forall r :: 0 <= r < |keys| ==> |keys[r]| == |cols|
    ensures forall r, k :: 0 <= r < |keys| && 0 <= k < |cols| ==> keys[r][k] == t.columns[cols[k]][r]
  {
    seq(|t.yieldCol|, r requires 0 <= r < |t.yieldCol| =>
      seq(|cols|, k requires 0 <= k < |cols| => t.columns[cols[k]][r]))
  }

  /** `ground_truth['to_query'] = list(zip(*[ground_truth[c] for c in cols]))`:
      with at least one column every row gets its key; with none, `zip()`
      yields nothing and the assignment raises unless the table has no rows. */
  function QueryKeys(t: Table, cols: seq<nat>): (r: Result<seq<Arm>>)
    requires WellFormed(t)
    requires forall k :: 0 <= k < |cols| ==> cols[k] < |t.columns|
    ensures r.Success? <==> |cols| > 0 || |t.yieldCol| == 0
    ensures r.Failure? ==> r.error == KeyLengthMismatch(|t.yieldCol|)
    ensures r.Success? ==> r.value == Keys(t, cols)
  {
    if |cols| == 0 && |t.yieldCol| > 0 then Failure(KeyLengthMismatch(|t.yieldCol|))
    else Success(Keys(t, cols))
  }

  /** The yields of the rows keyed `arm`, in row order. */
  function YieldsOf(keys: seq<Arm>, values: seq<real>, arm: Arm): (ys: seq<real>)
    requires |keys| == |values|
    ensures |ys| <= |values|
  {
    if |keys| == 0 then []
    else
      var k := |keys| - 1;
      YieldsOf(keys[..k], values[..k], arm) + (if keys[k] == arm then [values[k]] else [])
  }

  /** `ground_truth[ground_truth['to_query'].isin(arms)]`: the rows whose key
      is one of the arms of interest. */
  function Filter(keys: seq<Arm>, values: seq<real>, arms: seq<Arm>): (f: (seq<Arm>, seq<real>))
    requires |keys| == |values|
    ensures |f.0| == |f.1| <= |keys|
    ensures forall i :: 0 <= i < |f.0| ==> f.0[i] in arms && f.0[i] in keys
  {
    if |keys| == 0 then ([], [])
    else
      var k := |keys| - 1;
      var init := Filter(keys[..k], values[..k], arms);
      if keys[k] in arms then (init.0 + [keys[k]], init.1 + [values[k]]) else init
  }

  /** Filtering keeps every yield of an arm of interest and drops every
      yield of any other arm. */
  lemma {:induction false} FilterKeepsArmYields(keys: seq<Arm>, values: seq<real>, arms: seq<Arm>, arm: Arm)
    requires |keys| == |values|
    ensures YieldsOf(Filter(keys, values, arms).0, Filter(keys, values, arms).1, arm)
            == if arm in arms then YieldsOf(keys, values, arm) else []
  {
    if |keys| > 0 {
      var k := |keys| - 1;
      var init := Filter(keys[..k], values[..k], arms);
      FilterKeepsArmYields(keys[..k], values[..k], arms, arm);
      if keys[k] in arms {
        var f := (init.0 + [keys[k]], init.1 + [values[k]]);
        assert f.0[..|init.0|] == init.0 && f.1[..|init.1|] == init.1;
      }
    }
  }

  /** The arithmetic mean of a non-empty list of yields. */
  function Mean(ys: seq<real>): real
    requires |ys| > 0
  {
    Sum(ys) / |ys| as real
  }

  /** `means[arm]` of `filtered.groupby(['to_query']).mean()['yield']`:
      the mean yield of the filtered rows keyed `arm`, a `KeyError` when
      there are none. */
  function GroupMean(fkeys: seq<Arm>, fyields: seq<real>, arm: Arm): (r: Result<real>)
    requires |fkeys| == |fyields|
    ensures r.Success? <==> |YieldsOf(fkeys, fyields, arm)| > 0
    ensures r.Failure? ==> r.error == ArmNotInGroundTruth(arm)
    ensures r.Success? ==> r.value == Mean(YieldsOf(fkeys, fyields, arm))
  {
    var ys := YieldsOf(fkeys, fyields, arm);
    if |ys| == 0 then Failure(ArmNotInGroundTruth(arm)) else Success(Mean(ys))
  }

  /** The `for arm in arms` loop: the group mean of every arm of interest,
      in order, failing at the first arm without rows. */
  function CollectMeans(fkeys: seq<Arm>, fyields: seq<real>, arms: seq<Arm>): (r: Result<seq<real>>)
    requires |fkeys| == |fyields|
    ensures r.Success? <==> forall k :: 0 <= k < |arms| ==> |YieldsOf(fkeys, fyields, arms[k])| > 0
    ensures r.Success? ==> |r.value| == |arms|
    ensures r.Success? ==> forall k :: 0 <= k < |arms| ==> GroupMean(fkeys, fyields, arms[k]) == Success(r.value[k])
    ensures r.Failure? ==> r.error.ArmNotInGroundTruth?
  {
    if |arms| == 0 then Success([])
    else
      var k := |arms| - 1;
      var init := CollectMeans(fkeys, fyields, arms[..k]);
      assert forall j :: 0 <= j < k ==> arms[..k][j] == arms[j];
      if init.Failure? then Failure(init.error)
      else
        var m :- GroupMean(fkeys, fyields, arms[k]);
        Success(init.value + [m])
  }

  /** The arm reported is the first arm of interest without a row. */
  lemma {:induction false} CollectMeansFailsAtFirst(fkeys: seq<Arm>, fyields: seq<real>, arms: seq<Arm>)
    requires |fkeys| == |fyields|
    requires CollectMeans(fkeys, fyields, arms).Failure?
    ensures exists k :: 0 <= k < |arms| && |YieldsOf(fkeys, fyields, arms[k])| == 0
              && CollectMeans(fkeys, fyields, arms).error == ArmNotInGroundTruth(arms[k])
              && forall j :: 0 <= j < k ==> |YieldsOf(fkeys, fyields, arms[j])| > 0
  {
    var k := |arms| - 1;
    var init := CollectMeans(fkeys, fyields, arms[..k]);
    assert forall j :: 0 <= j < k ==> arms[..k][j] == arms[j];
    if init.Failure? {
      CollectMeansFailsAtFirst(fkeys, fyields, arms[..k]);
      var i :| 0 <= i < k && |YieldsOf(fkeys, fyields, arms[..k][i])| == 0
               && init.error == ArmNotInGroundTruth(arms[..k][i])
               && forall j :: 0 <= j < i ==> |YieldsOf(fkeys, fyields, arms[..k][j])| > 0;
      assert CollectMeans(fkeys, fyields, arms).error == init.error;
      assert arms[..k][i] == arms[i];
    } else {
      assert CollectMeans(fkeys, fyields, arms).error == ArmNotInGroundTruth(arms[k]);
    }
  }

  /** `true_averages[inverse_arms_dict[arm]] = ...` followed by
      `[true_averages[ii] for ii in arms_indexes]`: index `ii` is a key of the
      dict exactly when it is the index the inverted catalog gives for its
      own arm, so the lookup raises for an earlier duplicate of a tuple. */
  function PickAverages(catalog: ArmCatalog, indexes: seq<int>, means: seq<real>): (r: Result<seq<real>>)
    requires |means| == |indexes|
    requires forall k :: 0 <= k < |indexes| ==> 0 <= indexes[k] < |catalog|
    ensures r.Success? <==> forall k :: 0 <= k < |indexes| ==> InverseIndex(catalog, catalog[indexes[k]]) == indexes[k]
    ensures r.Success? ==> r.value == means
    ensures r.Failure? ==>
              exists k :: 0 <= k < |indexes| && InverseIndex(catalog, catalog[indexes[k]]) != indexes[k]
                && r.error == UnknownArmIndex(indexes[k])
  {
    if |indexes| == 0 then Success([])
    else
      var k := |indexes| - 1;
      var init :- PickAverages(catalog, indexes[..k], means[..k]);
      if InverseIndex(catalog, catalog[indexes[k]]) != indexes[k] then Failure(UnknownArmIndex(indexes[k]))
      else
        assert forall j :: 0 <= j < k ==> indexes[..k][j] == indexes[j];
        assert means == means[..k] + [means[k]];
        Success(init + [means[k]])
  }

  /** The true averages `calculate_true_and_etc_average` returns, one per
      requested arm index.  It raises, in this order, for an unknown arm
      index, for no arm of interest, for an example label that is not in
      exactly one column, for an empty example arm over a non-empty table,
      for an arm with no row, and for an index shadowed by a later duplicate
      of its tuple. */
  function TrueAverages(catalog: ArmCatalog, indexes: seq<int>, table: Table, scaler: real -> real): (r: Result<seq<real>>)
    requires WellFormed(table)
    ensures r.Success? ==> |r.value| == |indexes|
    ensures ResolveAll(catalog, indexes).Failure? ==> r == Failure(ResolveAll(catalog, indexes).error)
    ensures |indexes| == 0 ==> r == Failure(NoArmsOfInterest)
    ensures ResolveAll(catalog, indexes).Success? && |indexes| > 0
            && ResolveColumns(Rescale(table, scaler), catalog[indexes[0]]).Failure? ==>
              r == Failure(ResolveColumns(Rescale(table, scaler), catalog[indexes[0]]).error)
    ensures ResolveAll(catalog, indexes).Success? && |indexes| > 0
            && ResolveColumns(Rescale(table, scaler), catalog[indexes[0]]).Success?
            && |catalog[indexes[0]]| == 0 && |table.yieldCol| > 0 ==>
              r == Failure(KeyLengthMismatch(|table.yieldCol|))
  {
    var t := Rescale(table, scaler);
    var arms :- ResolveAll(catalog, indexes);
    if |arms| == 0 then Failure(NoArmsOfInterest)
    else
      var cols :- ResolveColumns(t, arms[0]);
      var keys :- QueryKeys(t, cols);
      var f := Filter(keys, t.yieldCol, arms);
      var means :- CollectMeans(f.0, f.1, arms);
      PickAverages(catalog, indexes, means)
  }

  /** The reference: the mean of all the (rescaled) yields of the rows keyed
      `arm` under the columns resolved from `example`. */
  function TrueMean(table: Table, scaler: real -> real, example: Arm, arm: Arm): (r: Result<real>)
    requires WellFormed(table)
    ensures r.Success? ==> ResolveColumns(Rescale(table, scaler), example).Success?
    ensures r.Success? ==> |example| > 0
  {
    var t := Rescale(table, scaler);
    var cols :- ResolveColumns(t, example);
    var keys :- QueryKeys(t, cols);
    var ys := YieldsOf(keys, t.yieldCol, arm);
    if |ys| == 0 then Failure(ArmNotInGroundTruth(arm)) else Success(Mean(ys))
  }

  /** Every average `TrueAverages` returns is the reference mean of its arm
      over the whole table: restricting the table to the arms of interest
      changes no arm's mean. */
  lemma TrueAveragesAreTrueMeans(catalog: ArmCatalog, indexes: seq<int>, table: Table, scaler: real -> real)
    requires WellFormed(table)
    requires TrueAverages(catalog, indexes, table, scaler).Success?
    ensures |indexes| > 0
    ensures forall k :: 0 <= k < |indexes| ==>
              0 <= indexes[k] < |catalog| &&
              TrueMean(table, scaler, catalog[indexes[0]], catalog[indexes[k]])
              == Success(TrueAverages(catalog, indexes, table, scaler).value[k])
  {
    var t := Rescale(table, scaler);
    var arms := ResolveAll(catalog, indexes).value;
    var cols := ResolveColumns(t, arms[0]).value;
    var keys := Keys(t, cols);
    var f := Filter(keys, t.yieldCol, arms);
    var means := CollectMeans(f.0, f.1, arms).value;
    forall k | 0 <= k < |indexes|
      ensures TrueMean(table, scaler, catalog[indexes[0]], catalog[indexes[k]]) == Success(means[k])
    {
      FilterKeepsArmYields(keys, t.yieldCol, arms, arms[k]);
      assert arms[k] in arms;
    }
  }

  /** With a bijective catalog, valid indices, resolvable columns, a
      non-empty example arm and a row for every arm (all implied by every
      reference mean existing), the true averages exist; a tuple listed twice makes the
      earlier index fail even then. */
  lemma TrueAveragesSucceed(catalog: ArmCatalog, indexes: seq<int>, table: Table, scaler: real -> real)
    requires WellFormed(table)
    requires |indexes| > 0
    requires forall k :: 0 <= k < |indexes| ==> 0 <= indexes[k] < |catalog|
    requires forall k :: 0 <= k < |indexes| ==>
               TrueMean(table, scaler, catalog[indexes[0]], catalog[indexes[k]]).Success?
    ensures TrueAverages(catalog, indexes, table, scaler).Success? <==>
            forall k :: 0 <= k < |indexes| ==> InverseIndex(catalog, catalog[indexes[k]]) == indexes[k]
    ensures Bijective(catalog) ==> TrueAverages(catalog, indexes, table, scaler).Success?
  {
    var means := MeansReachLookup(catalog, indexes, table, scaler);
    InverseRoundTrip(catalog);
  }

  /** When every reference mean exists, the computation gets past the group
      means and only the final lookup through the inverted catalog remains. */
  lemma MeansReachLookup(catalog: ArmCatalog, indexes: seq<int>, table: Table, scaler: real -> real)
    returns (means: seq<real>)
    requires WellFormed(table)
    requires |indexes| > 0
    requires forall k :: 0 <= k < |indexes| ==> 0 <= indexes[k] < |catalog|
    requires forall k :: 0 <= k < |indexes| ==>
               TrueMean(table, scaler, catalog[indexes[0]], catalog[indexes[k]]).Success?
    ensures |means| == |indexes|
    ensures TrueAverages(catalog, indexes, table, scaler) == PickAverages(catalog, indexes, means)
  {
    var t := Rescale(table, scaler);
    var arms := ResolveAll(catalog, indexes).value;
    assert TrueMean(table, scaler, catalog[indexes[0]], catalog[indexes[0]]).Success?;
    var cols := ResolveColumns(t, arms[0]).value;
    assert |cols| == |arms[0]| > 0;
    var keys := Keys(t, cols);
    assert QueryKeys(t, cols) == Success(keys);
    var f := Filter(keys, t.yieldCol, arms);
    forall k | 0 <= k < |arms|
      ensures |YieldsOf(f.0, f.1, arms[k])| > 0
    {
      assert arms[k] in arms;
      FilteredArmHasRows(table, scaler, arms[0], arms[k], arms);
    }
    var r := CollectMeans(f.0, f.1, arms);
    assert r.Success?;
    means := r.value;
  }

  /** An arm whose reference mean exists keeps its rows after filtering to
      the arms of interest. */
  lemma FilteredArmHasRows(table: Table, scaler: real -> real, example: Arm, arm: Arm, arms: seq<Arm>)
    requires WellFormed(table)
    requires arm in arms
    requires TrueMean(table, scaler, example, arm).Success?
    ensures var t := Rescale(table, scaler);
            var keys := Keys(t, ResolveColumns(t, example).value);
            |YieldsOf(Filter(keys, t.yieldCol, arms).0, Filter(keys, t.yieldCol, arms).1, arm)| > 0
  {
    var t := Rescale(table, scaler);
    var keys := Keys(t, ResolveColumns(t, example).value);
    FilterKeepsArmYields(keys, t.yieldCol, arms, arm);
  }

  /** An arm of interest without a row in the table makes the averages
      fail with `ArmNotInGroundTruth`, once the indices and columns resolve. */
  lemma TrueAveragesMissingArm(catalog: ArmCatalog, indexes: seq<int>, table: Table, scaler: real -> real, k: nat)
    requires WellFormed(table)
    requires forall j :: 0 <= j < |indexes| ==> 0 <= indexes[j] < |catalog|
    requires k < |indexes|
    requires ResolveColumns(Rescale(table, scaler), catalog[indexes[0]]).Success?
    requires TrueMean(table, scaler, catalog[indexes[0]], catalog[indexes[k]]).Failure?
    ensures TrueAverages(catalog, indexes, table, scaler).Failure?
    ensures |catalog[indexes[0]]| > 0 || |table.yieldCol| == 0 ==>
              TrueAverages(catalog, indexes, table, scaler).error.ArmNotInGroundTruth?
    ensures |catalog[indexes[0]]| == 0 && |table.yieldCol| > 0 ==>
              TrueAverages(catalog, indexes, table, scaler).error == KeyLengthMismatch(|table.yieldCol|)
  {
    var t := Rescale(table, scaler);
    var arms := ResolveAll(catalog, indexes).value;
    var cols := ResolveColumns(t, arms[0]).value;
    if |cols| == 0 && |t.yieldCol| > 0 {
      assert TrueAverages(catalog, indexes, table, scaler) == Failure(KeyLengthMismatch(|t.yieldCol|));
    } else {
      var keys := Keys(t, cols);
      var f := Filter(keys, t.yieldCol, arms);
      FilterKeepsArmYields(keys, t.yieldCol, arms, arms[k]);
      assert arms[k] in arms;
      var means := CollectMeans(f.0, f.1, arms);
      assert means.Failure?;
      assert TrueAverages(catalog, indexes, table, scaler) == Failure(means.error);
    }
  }
}
