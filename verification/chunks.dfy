/** The per-batch maxima behind the batch-size accuracy plot: an accuracy
    curve is cut into consecutive chunks of `n` rounds and each chunk is
    summarised by its highest value.

    The products and quotients of chunk arithmetic are written as repeated
    addition and subtraction, which is what Python's `*`, `//` and `%`
    compute on the non-negative lengths and widths involved. */
module Chunks {
  import opened Results
  import opened Seqs

  /** `i * n`: where chunk `i` of width `n` starts. */
  function Offset(i: nat, n: nat): nat {
    if i == 0 then 0 else Offset(i - 1, n) + n
  }

  /** Later chunks start later, at least a whole width further on. */
  lemma {:induction false} OffsetMonotone(a: nat, b: nat, n: nat)
    requires a < b
    ensures Offset(a, n) + n <= Offset(b, n)
    decreases b
  {
    if a < b - 1 {
      OffsetMonotone(a, b - 1, n);
    }
  }

  /** `(len // n, len % n)` for a positive width. */
  function FloorDiv(len: nat, n: nat): (qr: (nat, nat))
    requires n > 0
    ensures Offset(qr.0, n) + qr.1 == len && qr.1 < n
    decreases len
  {
    if len < n then (0, len)
    else
      var (q, r) := FloorDiv(len - n, n);
      (q + 1, r)
  }

  /** Chunk `i` of width `n`: `arr[i*n:(i+1)*n]`, cut short by the end of
      `arr`. */
  function Chunk(arr: seq<real>, n: nat, i: nat): (c: seq<real>)
    requires n > 0 && Offset(i, n) < |arr|
    ensures |c| == Min(n, |arr| - Offset(i, n)) && 0 < |c|
    ensures forall j :: 0 <= j < |c| ==> c[j] == arr[Offset(i, n) + j]
  {
    arr[Offset(i, n) .. Min(Offset(i, n) + n, |arr|)]
  }

  /** `k` chunks of width `n` are the fewest that cover `len` elements. */
  ghost predicate IsChunkCount(k: nat, len: nat, n: nat) {
    len <= Offset(k, n) && (k == 0 || Offset(k - 1, n) < len)
  }

  /** `m` is the highest value of chunk `i`. */
  ghost predicate IsChunkMax(m: real, arr: seq<real>, n: nat, i: nat)
    requires n > 0
  {
    Offset(i, n) < |arr| && IsMax(m, Chunk(arr, n, i))
  }

  /** A whole chunk below the quotient fits inside the sequence. */
  lemma {:induction false} ChunkFits(len: nat, n: nat, i: nat)
    requires n > 0 && i < FloorDiv(len, n).0
    ensures Offset(i, n) + n <= len
  {
    if i + 1 < FloorDiv(len, n).0 {
      OffsetMonotone(i + 1, FloorDiv(len, n).0, n);
    }
  }

  /** The maxima of the first `k` whole chunks, in order: the values the
      source's loop appends. */
  function WholeChunkMaxima(arr: seq<real>, n: nat, k: nat): (m: seq<real>)
    requires n > 0 && Offset(k, n) <= |arr|
    ensures |m| == k
    ensures forall i :: 0 <= i < k ==> IsChunkMax(m[i], arr, n, i)
  {
    if k == 0 then []
    else
      var lo := Offset(k - 1, n);
      assert Chunk(arr, n, k - 1) == arr[lo .. lo + n];
      WholeChunkMaxima(arr, n, k - 1) + [MaxReal(arr[lo .. lo + n])]
  }

  /** `highest_every_n_element(n, arr)`: the maxima of the `len(arr) // n`
      whole chunks, followed by the maximum of the last `len(arr) % n`
      elements when they are not empty.  A width of zero makes the floor
      division raise. */
  function HighestEveryN(n: nat, arr: seq<real>): (r: Result<seq<real>>)
    ensures r.Success? <==> n > 0
    ensures n == 0 ==> r == Failure(ZeroChunkSize)
    ensures r.Success? ==> IsChunkCount(|r.value|, |arr|, n)
    ensures r.Success? ==> forall i :: 0 <= i < |r.value| ==> IsChunkMax(r.value[i], arr, n, i)
  {
    if n == 0 then Failure(ZeroChunkSize)
    else
      var qr := FloorDiv(|arr|, n);
      var maxes := WholeChunkMaxima(arr, n, qr.0);
      if qr.1 != 0 then
        var last := MaxReal(arr[|arr| - qr.1 ..]);
        assert Chunk(arr, n, qr.0) == arr[|arr| - qr.1 ..];
        Success(maxes + [last])
      else
        Success(maxes)
  }

  /** The quotient-remainder identity determines both: any `q`, `r` with
      `q * n + r == len` and `0 <= r < n` are `len // n` and `len % n`. */
  lemma {:induction false} FloorDivUnique(len: nat, n: nat, q: nat, r: nat)
    requires n > 0 && Offset(q, n) + r == len && r < n
    ensures FloorDiv(len, n) == (q, r)
  {
    var q0 := FloorDiv(len, n).0;
    if q < q0 {
      OffsetMonotone(q, q0, n);
    } else if q0 < q {
      OffsetMonotone(q0, q, n);
    }
  }

  /** With a non-empty remainder there is one entry more than whole
      chunks. */
  lemma ResidualCount(n: nat, arr: seq<real>)
    requires n > 0 && FloorDiv(|arr|, n).1 != 0
    ensures HighestEveryN(n, arr).Success?
    ensures |HighestEveryN(n, arr).value| == FloorDiv(|arr|, n).0 + 1
  {
    var q := FloorDiv(|arr|, n).0;
    assert IsChunkCount(q + 1, |arr|, n);
    ChunkCountUnique(|HighestEveryN(n, arr).value|, q + 1, |arr|, n);
  }

  /** The trailing entry is the maximum of the last `len(arr) % n`
      elements, a chunk shorter than `n`. */
  lemma ResidualEntry(n: nat, arr: seq<real>)
    requires n > 0 && FloorDiv(|arr|, n).1 != 0
    ensures HighestEveryN(n, arr).Success?
    ensures |HighestEveryN(n, arr).value| == FloorDiv(|arr|, n).0 + 1
    ensures IsMax(HighestEveryN(n, arr).value[FloorDiv(|arr|, n).0], arr[|arr| - FloorDiv(|arr|, n).1 ..])
  {
    ResidualCount(n, arr);
    var m := HighestEveryN(n, arr).value;
    var q := FloorDiv(|arr|, n).0;
    ResidualChunk(n, arr);
    assert IsChunkMax(m[q], arr, n, q);
  }

  lemma ResidualChunk(n: nat, arr: seq<real>)
    requires n > 0 && FloorDiv(|arr|, n).1 != 0
    ensures Offset(FloorDiv(|arr|, n).0, n) < |arr|
    ensures Chunk(arr, n, FloorDiv(|arr|, n).0) == arr[|arr| - FloorDiv(|arr|, n).1 ..]
  {
  }

  /** Reference definition: peel `n` elements off the front at a time. */
  function Peel(n: nat, arr: seq<real>): seq<real>
    requires n > 0
    decreases |arr|
  {
    if |arr| == 0 then []
    else if |arr| <= n then [MaxReal(arr)]
    else [MaxReal(arr[..n])] + Peel(n, arr[n..])
  }

  /** Two maxima of the same sequence are equal. */
  lemma MaxIsUnique(a: real, b: real, s: seq<real>)
    requires IsMax(a, s) && IsMax(b, s)
    ensures a == b
  {
  }

  /** The fewest covering chunks are unique. */
  lemma ChunkCountUnique(k1: nat, k2: nat, len: nat, n: nat)
    requires IsChunkCount(k1, len, n) && IsChunkCount(k2, len, n)
    ensures k1 == k2
  {
    if k1 < k2 - 1 {
      OffsetMonotone(k1, k2 - 1, n);
    } else if k2 < k1 - 1 {
      OffsetMonotone(k2, k1 - 1, n);
    }
  }

  /** Dropping the first chunk shifts every later chunk down by one. */
  lemma ChunkShift(arr: seq<real>, n: nat, i: nat)
    requires n > 0 && i > 0 && n <= |arr| && Offset(i, n) < |arr|
    ensures Offset(i - 1, n) < |arr[n..]|
    ensures Chunk(arr[n..], n, i - 1) == Chunk(arr, n, i)
  {
    var a, b := Chunk(arr[n..], n, i - 1), Chunk(arr, n, i);
    assert |a| == |b|;
    forall j | 0 <= j < |a|
      ensures a[j] == b[j]
    {
      assert arr[n..][Offset(i - 1, n) + j] == arr[Offset(i, n) + j];
    }
  }

  /** Peeling meets the chunk-maxima contract. */
  lemma {:induction false} PeelIsChunkMaxima(n: nat, arr: seq<real>)
    requires n > 0
    ensures IsChunkCount(|Peel(n, arr)|, |arr|, n)
    ensures forall i :: 0 <= i < |Peel(n, arr)| ==> IsChunkMax(Peel(n, arr)[i], arr, n, i)
    decreases |arr|
  {
    var p := Peel(n, arr);
    if |arr| == 0 {
    } else if |arr| <= n {
      assert Chunk(arr, n, 0) == arr;
    } else {
      var rest := arr[n..];
      PeelIsChunkMaxima(n, rest);
      var pr := Peel(n, rest);
      assert p == [MaxReal(arr[..n])] + pr;
      forall i | 0 <= i < |p|
        ensures IsChunkMax(p[i], arr, n, i)
      {
        if i == 0 {
          assert Chunk(arr, n, 0) == arr[..n];
        } else {
          assert IsChunkMax(pr[i - 1], rest, n, i - 1);
          ChunkShift(arr, n, i);
        }
      }
    }
  }

  /** The contract of `HighestEveryN` pins its result down: two sequences
      that both list the chunk maxima of `arr` are equal. */
  lemma ChunkMaximaUnique(m1: seq<real>, m2: seq<real>, arr: seq<real>, n: nat)
    requires n > 0
    requires IsChunkCount(|m1|, |arr|, n) && IsChunkCount(|m2|, |arr|, n)
    requires forall i :: 0 <= i < |m1| ==> IsChunkMax(m1[i], arr, n, i)
    requires forall i :: 0 <= i < |m2| ==> IsChunkMax(m2[i], arr, n, i)
    ensures m1 == m2
  {
    ChunkCountUnique(|m1|, |m2|, |arr|, n);
    forall i | 0 <= i < |m1|
      ensures m1[i] == m2[i]
    {
      assert IsChunkMax(m1[i], arr, n, i) && IsChunkMax(m2[i], arr, n, i);
      MaxIsUnique(m1[i], m2[i], Chunk(arr, n, i));
    }
  }

  /** The index arithmetic of the source agrees with peeling chunks off the
      front one at a time. */
  lemma HighestEveryNIsPeel(n: nat, arr: seq<real>)
    requires n > 0
    ensures HighestEveryN(n, arr) == Success(Peel(n, arr))
  {
    PeelIsChunkMaxima(n, arr);
    ChunkMaximaUnique(HighestEveryN(n, arr).value, Peel(n, arr), arr, n);
  }

  /** With chunks of one element every value is its own maximum: the curve
      comes back unchanged. */
  lemma {:induction false} WidthOneIsIdentity(arr: seq<real>)
    ensures HighestEveryN(1, arr) == Success(arr)
  {
    var m := HighestEveryN(1, arr).value;
    assert |m| == |arr| by {
      OffsetOfOne(|m|);
      if |m| > 0 {
        OffsetOfOne(|m| - 1);
      }
    }
    forall i | 0 <= i < |arr|
      ensures m[i] == arr[i]
    {
      OffsetOfOne(i);
      assert IsChunkMax(m[i], arr, 1, i);
      assert Chunk(arr, 1, i) == [arr[i]];
    }
    assert m == arr;
  }

  lemma {:induction false} OffsetOfOne(i: nat)
    ensures Offset(i, 1) == i
  {
    if i > 0 {
      OffsetOfOne(i - 1);
    }
  }

  /** A single chunk covers the whole curve when `n >= len(arr)`. */
  lemma WideChunkIsGlobalMax(n: nat, arr: seq<real>)
    requires 0 < |arr| <= n
    ensures HighestEveryN(n, arr) == Success([MaxReal(arr)])
  {
    HighestEveryNIsPeel(n, arr);
  }

  /** Element `j` lies in chunk `j // n`, and that chunk is one of the
      `k` that cover the sequence. */
  lemma {:induction false} ChunkOfElement(j: nat, len: nat, n: nat, k: nat)
    requires n > 0 && j < len && IsChunkCount(k, len, n)
    ensures var i := FloorDiv(j, n).0;
            i < k && Offset(i, n) <= j < Offset(i, n) + n
  {
    var i := FloorDiv(j, n).0;
    if i >= k {
      if i > k {
        OffsetMonotone(k, i, n);
      }
      assert false;
    }
  }

  /** A chunk's maximum is a value of the curve. */
  lemma ChunkMaxInCurve(m: real, arr: seq<real>, n: nat, i: nat)
    requires n > 0 && IsChunkMax(m, arr, n, i)
    ensures m in arr
  {
    var c := Chunk(arr, n, i);
    var k :| 0 <= k < |c| && c[k] == m;
    assert arr[Offset(i, n) + k] == m;
  }

  /** Every value lies below the maximum of the chunk that holds it. */
  lemma ElementBelowItsChunkMax(m: seq<real>, arr: seq<real>, n: nat, j: nat)
    requires n > 0 && j < |arr|
    requires IsChunkCount(|m|, |arr|, n)
    requires forall i :: 0 <= i < |m| ==> IsChunkMax(m[i], arr, n, i)
    ensures exists i :: 0 <= i < |m| && arr[j] <= m[i]
  {
    ChunkOfElement(j, |arr|, n, |m|);
    var i := FloorDiv(j, n).0;
    assert IsChunkMax(m[i], arr, n, i);
    assert Chunk(arr, n, i)[j - Offset(i, n)] == arr[j];
  }

  /** Chunking never loses the curve's highest value. */
  lemma {:induction false} GlobalMaxKept(n: nat, arr: seq<real>)
    requires n > 0 && |arr| > 0
    ensures HighestEveryN(n, arr).Success?
    ensures |HighestEveryN(n, arr).value| > 0
    ensures MaxReal(HighestEveryN(n, arr).value) == MaxReal(arr)
  {
    var m := HighestEveryN(n, arr).value;
    assert |m| > 0;
    var top := MaxReal(m);
    forall j | 0 <= j < |arr|
      ensures arr[j] <= top
    {
      ElementBelowItsChunkMax(m, arr, n, j);
    }
    var i :| 0 <= i < |m| && m[i] == top;
    ChunkMaxInCurve(top, arr, n, i);
    MaxIsUnique(top, MaxReal(arr), arr);
  }
}
