/**
 Count mode of `create_subset_pvd` (identical in subsetPVD/cli.py and
 gen_subset_pvd.py): keep every s-th DataSet of all but the last one, with
 stride s = N / nsubset, and optionally overwrite the last kept slot with the
 final DataSet.
 */
module Slicing {
  import opened Types

  /** Python's extended slice `xs[0::s]`: the element at index 0, then the
      slice taken again from index s, until the sequence runs out. */
  function StepSlice<T>(xs: seq<T>, s: nat): seq<T>
    requires s >= 1
    decreases |xs|
  {
    if |xs| == 0 then []
    else [xs[0]] + StepSlice(if s <= |xs| then xs[s..] else [], s)
  }

  /** What is left of `xs` once the first i elements are consumed. */
  function Drop<T>(xs: seq<T>, i: nat): seq<T>
  {
    if i <= |xs| then xs[i..] else []
  }

  /** The step slice has ceil(|xs|/s) elements: one more slot would reach
      past the end of `xs`. */
  lemma {:induction false} StepSliceLength<T>(xs: seq<T>, s: nat)
    requires s >= 1
    decreases |xs|
    ensures |StepSlice(xs, s)| * s >= |xs|
    ensures |StepSlice(xs, s)| > 0 ==> (|StepSlice(xs, s)| - 1) * s < |xs|
  {
    if |xs| > 0 {
      var rest := if s <= |xs| then xs[s..] else [];
      StepSliceLength(rest, s);
      MulSucc(|StepSlice(rest, s)|, s);
    }
  }

  /** The k-th element of the step slice is xs[k*s]. */
  lemma {:induction false} StepSliceAt<T>(xs: seq<T>, s: nat, k: nat)
    requires s >= 1 && k < |StepSlice(xs, s)|
    decreases |xs|
    ensures k * s < |xs| && StepSlice(xs, s)[k] == xs[k * s]
  {
    var rest := if s <= |xs| then xs[s..] else [];
    if k > 0 {
      StepSliceAt(rest, s, k - 1);
      MulSucc(k - 1, s);
    }
  }

  lemma MulSucc(k: int, s: int)
    ensures (k + 1) * s == k * s + s
  {
  }

  /** The strided part of count mode: every s-th entry of all but the
      final one, the last slot then overwritten by the final entry when
      `incFinal` holds. */
  function Strided(elems: seq<Entry>, s: nat, incFinal: bool): seq<Entry>
    requires |elems| >= 2 && s >= 1
  {
    var slice := StepSlice(elems[..|elems| - 1], s);
    if incFinal then slice[|slice| - 1 := elems[|elems| - 1]] else slice
  }

  /** The subset count mode produces for `nsubset` = n (n > 2 has already
      been checked by the caller). */
  function CountSubset(elems: seq<Entry>, n: int, incFinal: bool): seq<Entry>
    requires n > 2
  {
    var N := |elems|;
    if N <= n then elems
    else
      StrideBounds(N, n);
      Strided(elems, N / n, incFinal)
  }

  /** The stride count mode uses: N / n is at least 1 and n strides fit in N. */
  lemma StrideBounds(N: int, n: int)
    requires n > 2 && N > n
    ensures N / n >= 1 && n * (N / n) <= N
  {
    assert N / n >= 1 by {
      assert N >= n * 1;
    }
  }

  /** The strided result has ceil((N-1)/s) slots, slot i holds elems[i*s],
      and only the last slot depends on `incFinal`. */
  lemma StridedShape(elems: seq<Entry>, s: nat, incFinal: bool)
    requires |elems| >= 2 && s >= 1
    ensures var N := |elems|; var r := Strided(elems, s, incFinal);
            |r| > 0 && (|r| - 1) * s < N - 1 <= |r| * s &&
            (forall i :: 0 <= i < |r| - 1 ==> 0 <= i * s < N - 1 && r[i] == elems[i * s]) &&
            r[|r| - 1] == (if incFinal then elems[N - 1] else elems[(|r| - 1) * s])
  {
    var N := |elems|;
    var xs := elems[..N - 1];
    var slice := StepSlice(xs, s);
    var r := Strided(elems, s, incFinal);
    assert r == if incFinal then slice[|slice| - 1 := elems[N - 1]] else slice;
    StepSliceLength(xs, s);
    assert |slice| > 0;
    var L := |slice|;
    assert |r| == L;
    forall i | 0 <= i < L - 1
      ensures 0 <= i * s < N - 1 && r[i] == elems[i * s]
    {
      StepSliceAt(xs, s, i);
      assert r[i] == slice[i];
    }
    StepSliceAt(xs, s, L - 1);
    assert !incFinal ==> r[L - 1] == slice[L - 1] == xs[(L - 1) * s];
  }

  /** Count mode, case by case: a collection of at most n entries is kept
      unchanged; otherwise the stride is s = N / n >= 1, the result has
      ceil((N-1)/s) slots (so (|r|-1)*s < N-1 <= |r|*s), slot i holds
      elems[i*s], and only the last slot depends on `incFinal`, where it
      holds the final entry. */
  lemma CountSubsetShape(elems: seq<Entry>, n: int, incFinal: bool)
    requires n > 2
    ensures var r := CountSubset(elems, n, incFinal);
            |elems| <= n ==> r == elems
    ensures var N := |elems|; var s := N / n; var r := CountSubset(elems, n, incFinal);
            N > n ==>
              s >= 1 && |r| > 0 && (|r| - 1) * s < N - 1 <= |r| * s &&
              (forall i :: 0 <= i < |r| - 1 ==> 0 <= i * s < N - 1 && r[i] == elems[i * s]) &&
              r[|r| - 1] == (if incFinal then elems[N - 1] else elems[(|r| - 1) * s])
  {
    var N := |elems|;
    if N > n {
      StrideBounds(N, n);
      StridedShape(elems, N / n, incFinal);
    }
  }

  /** Arithmetic behind CountSubsetAtLeastTarget: L slots of stride N / n
      cannot cover N - 1 indices unless L >= n. */
  lemma SlotsCoverTarget(N: int, n: int, L: int)
    requires n > 2 && N > n && L >= 0
    requires N - 1 <= L * (N / n)
    ensures L >= n
  {
    StrideBounds(N, n);
  }

  /** Although the stride is chosen from the target count, the strided
      result never has fewer than n entries: ceil((N-1)/(N/n)) >= n. */
  lemma CountSubsetAtLeastTarget(elems: seq<Entry>, n: int, incFinal: bool)
    requires n > 2 && |elems| > n
    ensures |CountSubset(elems, n, incFinal)| >= n
  {
    CountSubsetShape(elems, n, incFinal);
    SlotsCoverTarget(|elems|, n, |CountSubset(elems, n, incFinal)|);
  }

  /** Count mode as the code runs it: the strided slice is built by an
      explicit index walk, then the last slot is overwritten in place. */
  method SelectByCount(elems: seq<Entry>, n: int, incFinal: bool) returns (subset: seq<Entry>)
    requires n > 2
    ensures subset == CountSubset(elems, n, incFinal)
  {
    subset := elems;
    var N := |elems|;
    if N > n {
      StrideBounds(N, n);
      var step := N / n;
      ghost var xs := elems[..N - 1];
      subset := [];
      var i := 0;
      while i < N - 1
        invariant subset + StepSlice(Drop(xs, i), step) == StepSlice(xs, step)
      {
        assert Drop(xs, i)[0] == elems[i];
        assert Drop(xs, i + step) == (if step <= |Drop(xs, i)| then Drop(xs, i)[step..] else []);
        subset := subset + [elems[i]];
        i := i + step;
      }
      assert Drop(xs, i) == [];
      if incFinal {
        subset := subset[|subset| - 1 := elems[N - 1]];
      }
    }
  }

  /** Five entries, n = 3, final included: stride 1 over the first four,
      then the last slot replaced, giving [a0, a1, a2, a4]; the result is
      longer than the requested count. */
  lemma CountFiveByThree(a0: Entry, a1: Entry, a2: Entry, a3: Entry, a4: Entry)
    ensures CountSubset([a0, a1, a2, a3, a4], 3, true) == [a0, a1, a2, a4]
    ensures |CountSubset([a0, a1, a2, a3, a4], 3, false)| == 4 > 3
  {
    var xs := [a0, a1, a2, a3];
    assert [a0, a1, a2, a3, a4][..4] == xs;
    assert StepSlice(xs, 1) == [a0] + StepSlice(xs[1..], 1);
    assert StepSlice(xs[1..], 1) == [a1] + StepSlice(xs[2..], 1);
    assert StepSlice(xs[2..], 1) == [a2] + StepSlice(xs[3..], 1);
    assert StepSlice(xs[3..], 1) == [a3] + StepSlice(xs[4..], 1);
    assert StepSlice(xs, 1) == xs;
  }
}
