/** Failure values for the evaluation engine.

    The analysis code signals every problem by raising a Python exception
    (a `ValueError` from `np.max` on an empty column, an `IndexError` when a
    simulation has more rows than the horizon, a `KeyError` for a missing arm,
    an `AssertionError` from column resolution).  Each of those raising points
    becomes one constructor of `Error`, and every operation that can raise
    returns a `Result`.
 */
module Results {

  datatype Error =
    /** `np.max` over the `num_sims` / `horizon` column of a log with no rows. */
    | EmptyLog
    /** `best_arms[n, t]` with `t >= time_horizon`: simulation `sim` has `rows` rows. */
    | RoundOutOfRange(sim: nat, rows: nat, horizon: nat)
    /** `all_arms[ii, :] = list(...)` where the list neither has the horizon's
        length nor length one, so numpy cannot broadcast it. */
    | BroadcastMismatch(sim: nat, rows: nat, horizon: nat)
    /** `arms_dict[ii]` for an index the arm catalog does not hold. */
    | UnknownArmIndex(index: int)
    /** `arms[0]` when no arm of interest was requested. */
    | NoArmsOfInterest
    /** `assert (len(l) == 1)`: the element occurs in `matches` columns, not one. */
    | ColumnMatch(element: string, matches: nat)
    /** `means[arm]` for an arm with no row in the ground-truth table. */
    | ArmNotInGroundTruth(arm: seq<string>)
    /** `max_horizon / len(arms_dict)` with an empty arm catalog. */
    | EmptyCatalog
    /** A positional index `position` into an index of `size` entries. */
    | PositionOutOfRange(position: int, size: nat)
    /** `len(arr) // n` with a chunk width of zero. */
    | ZeroChunkSize
    /** `ground_truth['to_query'] = list(zip())`: with no key column the key
        list is empty, and pandas refuses it for a table of `rows` rows. */
    | KeyLengthMismatch(rows: nat)

  /** The outcome of an operation that may raise. */
  datatype Result<+T> = Success(value: T) | Failure(error: Error) {

    predicate IsFailure() {
      Failure?
    }

    function PropagateFailure<U>(): Result<U>
      requires Failure?
    {
      Failure(error)
    }

    function Extract(): T
      requires Success?
    {
      value
    }
  }
}
