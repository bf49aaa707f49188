/** The arm catalog (`arms.pkl`): arm index `i` stands for the tuple of
    condition labels at position `i`.  The evaluation code looks arms up by
    index, inverts the mapping with a dict comprehension, and labels arms by
    joining their tuple with '/'. */
module Catalog {
  import opened Results

  /** One experimental condition: a tuple of categorical labels. */
  type Arm = seq<string>

  /** Arm index `i` is mapped to `catalog[i]`. */
  type ArmCatalog = seq<Arm>

  /** `arms_dict[ii]`: a `KeyError` for an index the catalog lacks. */
  function Resolve(catalog: ArmCatalog, i: int): (r: Result<Arm>)
    ensures r.Success? <==> 0 <= i < |catalog|
    ensures r.Success? ==> r.value == catalog[i]
    ensures r.Failure? ==> r.error == UnknownArmIndex(i)
  {
    if 0 <= i < |catalog| then Success(catalog[i]) else Failure(UnknownArmIndex(i))
  }

  /** `[arms_dict[ii] for ii in arms_indexes]`: fails at the first unknown
      index. */
  function ResolveAll(catalog: ArmCatalog, indexes: seq<int>): (r: Result<seq<Arm>>)
    ensures r.Success? <==> forall k :: 0 <= k < |indexes| ==> 0 <= indexes[k] < |catalog|
    ensures r.Success? ==> |r.value| == |indexes| && forall k :: 0 <= k < |indexes| ==> r.value[k] == catalog[indexes[k]]
    ensures r.Failure? ==> exists k :: 0 <= k < |indexes| && r.error == UnknownArmIndex(indexes[k])
                             && !(0 <= indexes[k] < |catalog|)
                             && forall j :: 0 <= j < k ==> 0 <= indexes[j] < |catalog|
  {
    if |indexes| == 0 then Success([])
    else
      var head :- Resolve(catalog, indexes[0]);
      var tail := ResolveAll(catalog, indexes[1..]);
      if tail.Failure? then
        var k :| 0 <= k < |indexes| - 1 && tail.error == UnknownArmIndex(indexes[1..][k])
                 && !(0 <= indexes[1..][k] < |catalog|)
                 && forall j :: 0 <= j < k ==> 0 <= indexes[1..][j] < |catalog|;
        assert indexes[k + 1] == indexes[1..][k];
        assert forall j :: 1 <= j < k + 1 ==> indexes[j] == indexes[1..][j - 1];
        Failure(tail.error)
      else
        Success([head] + tail.value)
  }

  /** No tuple is listed under two indices. */
  ghost predicate Bijective(catalog: ArmCatalog) {
    forall i, j :: 0 <= i < j < |catalog| ==> catalog[i] != catalog[j]
  }

  /** `inverse_arms_dict[arm]` of `{v: k for k, v in arms_dict.items()}`:
      when a tuple is listed twice the later index overwrites the earlier. */
  function InverseIndex(catalog: ArmCatalog, arm: Arm): (i: nat)
    requires arm in catalog
    ensures i < |catalog| && catalog[i] == arm
    ensures forall j :: i < j < |catalog| ==> catalog[j] != arm
  {
    var k := |catalog| - 1;
    if catalog[k] == arm then k
    else
      assert arm in catalog[..k] by {
        var j :| 0 <= j < |catalog| && catalog[j] == arm;
        assert j < k && catalog[..k][j] == arm;
      }
      InverseIndex(catalog[..k], arm)
  }

  /** Inverting and then resolving gives every index back exactly when the
      catalog is a bijection. */
  lemma InverseRoundTrip(catalog: ArmCatalog)
    ensures Bijective(catalog) <==>
            forall i :: 0 <= i < |catalog| ==> InverseIndex(catalog, catalog[i]) == i
  {
    if Bijective(catalog) {
      forall i | 0 <= i < |catalog|
        ensures InverseIndex(catalog, catalog[i]) == i
      {
      }
    }
    if forall i :: 0 <= i < |catalog| ==> InverseIndex(catalog, catalog[i]) == i {
      forall i, j | 0 <= i < j < |catalog|
        ensures catalog[i] != catalog[j]
      {
        assert InverseIndex(catalog, catalog[i]) == i;
      }
    }
  }

  /** `sep.join(parts)`. */
  function Join(parts: seq<string>, sep: char): string {
    if |parts| == 0 then ""
    else if |parts| == 1 then parts[0]
    else parts[0] + [sep] + Join(parts[1..], sep)
  }

  /** `s.split(sep)`: always at least one part. */
  function Split(s: string, sep: char): (parts: seq<string>)
    ensures |parts| > 0
  {
    if |s| == 0 then [""]
    else
      var rest := Split(s[1..], sep);
      if s[0] == sep then [""] + rest else [[s[0]] + rest[0]] + rest[1..]
  }

  /** A part without the separator splits off whole at the front. */
  lemma {:induction false} SplitAfterPart(p: string, sep: char, tail: seq<string>, s: string)
    requires sep !in p
    requires Split(s, sep) == tail
    ensures Split(p + [sep] + s, sep) == [p] + tail
    ensures Split(p, sep) == [p]
  {
    if |p| > 0 {
      SplitAfterPart(p[1..], sep, tail, s);
      assert (p + [sep] + s)[1..] == p[1..] + [sep] + s;
      assert [p[0]] + p[1..] == p;
    } else {
      assert p + [sep] + s == [sep] + s;
    }
  }

  /** `'/'.join(arms_dict[ii])`: the label of arm `i`. */
  function Label(catalog: ArmCatalog, i: int): (r: Result<string>)
    ensures r.Success? <==> 0 <= i < |catalog|
    ensures r.Failure? ==> r.error == UnknownArmIndex(i)
  {
    var arm :- Resolve(catalog, i);
    Success(Join(arm, '/'))
  }

  /** `['/'.join(arms_dict[ii]) for ii in arms_indexes]`: fails at the
      first unknown index. */
  function Labels(catalog: ArmCatalog, indexes: seq<int>): (r: Result<seq<string>>)
    ensures r.Success? <==> forall k :: 0 <= k < |indexes| ==> 0 <= indexes[k] < |catalog|
    ensures r.Success? ==> |r.value| == |indexes|
    ensures r.Success? ==> forall k :: 0 <= k < |indexes| ==> Success(r.value[k]) == Label(catalog, indexes[k])
    ensures r.Failure? ==> ResolveAll(catalog, indexes).Failure? && r.error == ResolveAll(catalog, indexes).error
  {
    var arms :- ResolveAll(catalog, indexes);
    Success(seq(|arms|, k requires 0 <= k < |arms| => Join(arms[k], '/')))
  }

  /** Splitting a label at '/' gives the arm back when no label of the arm
      contains '/' itself. */
  lemma {:induction false} SplitJoin(parts: seq<string>, sep: char)
    requires |parts| > 0
    requires forall k :: 0 <= k < |parts| ==> sep !in parts[k]
    ensures Split(Join(parts, sep), sep) == parts
  {
    if |parts| == 1 {
      SplitAfterPart(parts[0], sep, [""], "");
    } else {
      SplitJoin(parts[1..], sep);
      SplitAfterPart(parts[0], sep, parts[1..], Join(parts[1..], sep));
      assert [parts[0]] + parts[1..] == parts;
    }
  }

  /** The label of an arm determines the arm. */
  lemma LabelRoundTrip(catalog: ArmCatalog, i: int)
    requires 0 <= i < |catalog| && |catalog[i]| > 0
    requires forall k :: 0 <= k < |catalog[i]| ==> '/' !in catalog[i][k]
    ensures Label(catalog, i).Success? && Split(Label(catalog, i).value, '/') == catalog[i]
  {
    SplitJoin(catalog[i], '/');
  }
}
