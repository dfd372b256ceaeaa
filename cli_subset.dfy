/**
 `create_subset_pvd` as subsetPVD/cli.py writes it. In time-step mode the
 variable `tlast` keeps the first timestep for the whole run, so every
 threshold lies on the fixed grid t0 + k*dt, and the final DataSet is
 appended whenever t0 < tfinal, even when the loop already selected it.
 Count mode is the one shared with gen_subset_pvd.py (module Slicing).
 */
module CliSubset {
  import opened Types
  import Slicing

  /** The grid cell of t: the number of whole steps dt from t0 to t
      (`math.floor((tcurr - tlast) / t_step)` with tlast = t0). */
  function Cell(t0: real, dt: real, t: real): int
    requires dt > 0.0
  {
    ((t - t0) / dt).Floor
  }

  /** The k-th grid line t0 + k*dt. */
  function GridPoint(t0: real, dt: real, k: int): real
  {
    t0 + (k as real) * dt
  }

  /** The threshold set after selecting an entry at time t. */
  function GridNext(t0: real, dt: real, t: real): real
    requires dt > 0.0
  {
    t0 + ((Cell(t0, dt, t) + 1) as real) * dt
  }

  /** A point at or above grid line c lies in cell c or a later one. */
  lemma CellAbove(t0: real, dt: real, t: real, c: int)
    requires dt > 0.0 && t >= t0 + (c as real) * dt
    ensures Cell(t0, dt, t) >= c
  {
    assert (t - t0) / dt >= c as real by {
      assert t - t0 >= (c as real) * dt;
      assert ((t - t0) / dt) * dt == t - t0;
    }
  }

  /** Cells are ordered like the times in them. */
  lemma CellOrder(t0: real, dt: real, a: real, b: real)
    requires dt > 0.0 && Cell(t0, dt, a) < Cell(t0, dt, b)
    ensures a < b
  {
    var qa, qb := (a - t0) / dt, (b - t0) / dt;
    assert qa < qb;
    assert qa * dt == a - t0 && qb * dt == b - t0;
    assert qa * dt < qb * dt;
  }

  lemma MulLess(x: real, y: real, d: real)
    requires x < y && d > 0.0
    ensures x * d < y * d
  {
  }

  lemma MulAtMost(x: real, y: real, d: real)
    requires x <= y && d > 0.0
    ensures x * d <= y * d
  {
  }

  lemma DivTimes(x: real, d: real)
    requires d > 0.0
    ensures (x / d) * d == x
  {
  }

  /** The new threshold is the smallest grid point t0 + k*dt strictly above
      t: it exceeds t, lies at most one step above t, and is the grid line
      that opens the cell after t's. */
  lemma GridNextBounds(t0: real, dt: real, t: real)
    requires dt > 0.0
    ensures t < GridNext(t0, dt, t) <= t + dt
    ensures Cell(t0, dt, GridNext(t0, dt, t)) == Cell(t0, dt, t) + 1
    ensures forall k: int :: GridPoint(t0, dt, k) > t ==> GridNext(t0, dt, t) <= GridPoint(t0, dt, k)
  {
    var q := (t - t0) / dt;
    var c := Cell(t0, dt, t);
    var c1 := (c + 1) as real;
    var r := GridNext(t0, dt, t);
    assert r == t0 + c1 * dt;
    DivTimes(t - t0, dt);
    assert t == t0 + q * dt;
    assert q < c1;
    MulLess(q, c1, dt);
    assert q - 1.0 < c as real;
    MulLess(q - 1.0, c as real, dt);
    assert c1 * dt == (c as real) * dt + dt;
    assert r - t0 == c1 * dt;
    DivTimes(r - t0, dt);
    assert (r - t0) / dt == c1;
    forall k: int | GridPoint(t0, dt, k) > t
      ensures r <= GridPoint(t0, dt, k)
    {
      var kr := k as real;
      if kr <= q {
        MulAtMost(kr, q, dt);
        assert false;
      }
      assert k >= c + 1;
      MulAtMost(c1, kr, dt);
    }
  }

  /** State of the selection loop after the first i entries: the indices
      appended to `subset` so far and the current `tnext`. */
  datatype Scan = Scan(picks: seq<nat>, tnext: real)

  /** One iteration of the loop of cli.py, on entry i: an entry whose
      timestep reaches `tnext` is appended and `tnext` moves to the next grid
      line past it, measured from the fixed `tlast` = t0. */
  function GridStep(elems: seq<Entry>, dt: real, i: nat, st: Scan): Scan
    requires dt > 0.0 && i < |elems|
  {
    var t := elems[i].timestep;
    if t >= st.tnext then Scan(st.picks + [i], GridNext(elems[0].timestep, dt, t)) else st
  }

  /** The loop of cli.py run over elems[..i]. */
  function GridScan(elems: seq<Entry>, dt: real, i: nat): (st: Scan)
    requires dt > 0.0 && 0 < |elems| && i <= |elems|
    ensures forall k :: 0 <= k < |st.picks| ==> st.picks[k] < i
  {
    if i == 0 then Scan([], elems[0].timestep)
    else GridStep(elems, dt, i - 1, GridScan(elems, dt, i - 1))
  }

  /** Indices of the time-step-mode result of cli.py: the loop's picks, then
      the final index again when `inc_final` holds and t0 < tfinal. */
  function GridSubset(elems: seq<Entry>, dt: real, incFinal: bool): (r: seq<nat>)
    requires dt > 0.0 && 0 < |elems|
    ensures InRange(r, |elems|)
  {
    var N := |elems|;
    GridScan(elems, dt, N).picks
      + (if incFinal && elems[0].timestep < elems[N - 1].timestep then [N - 1] else [])
  }

  /** Selected entries lie in strictly increasing grid cells. */
  ghost predicate CellsIncrease(elems: seq<Entry>, dt: real, p: seq<nat>)
    requires dt > 0.0 && 0 < |elems| && InRange(p, |elems|)
  {
    forall a, b :: 0 <= a < b < |p| ==>
      Cell(elems[0].timestep, dt, elems[p[a]].timestep) < Cell(elems[0].timestep, dt, elems[p[b]].timestep)
  }

  /** What the loop keeps true after each entry. */
  ghost predicate GridInv(elems: seq<Entry>, dt: real, i: nat, st: Scan)
    requires dt > 0.0 && 0 < |elems| && i <= |elems|
  {
    var t0 := elems[0].timestep;
    var p := st.picks;
    InRange(p, i) && Increasing(p)
    && (i > 0 ==> |p| > 0 && p[0] == 0)
    && CellsIncrease(elems, dt, p)
    && (|p| == 0 ==> st.tnext == t0)
    && (|p| > 0 ==> st.tnext == GridNext(t0, dt, elems[p[|p| - 1]].timestep))
  }

  /** Appending an entry at or past `tnext` keeps the cells increasing. */
  lemma CellsIncreaseAppend(elems: seq<Entry>, dt: real, p: seq<nat>, i: nat)
    requires dt > 0.0 && i < |elems| && InRange(p, |elems|) && |p| > 0
    requires CellsIncrease(elems, dt, p)
    requires elems[i].timestep >= GridNext(elems[0].timestep, dt, elems[p[|p| - 1]].timestep)
    ensures CellsIncrease(elems, dt, p + [i])
  {
    var t0 := elems[0].timestep;
    var c := Cell(t0, dt, elems[p[|p| - 1]].timestep);
    CellAbove(t0, dt, elems[i].timestep, c + 1);
    var p' := p + [i];
    forall a, b | 0 <= a < b < |p'|
      ensures Cell(t0, dt, elems[p'[a]].timestep) < Cell(t0, dt, elems[p'[b]].timestep)
    {
      if b == |p| && a < |p| - 1 {
        assert Cell(t0, dt, elems[p[a]].timestep) < c;
      }
    }
  }

  /** One iteration keeps the loop invariant. */
  lemma GridInvStep(elems: seq<Entry>, dt: real, i: nat, st: Scan)
    requires dt > 0.0 && i < |elems| && GridInv(elems, dt, i, st)
    ensures GridInv(elems, dt, i + 1, GridStep(elems, dt, i, st))
  {
    var p := st.picks;
    if elems[i].timestep >= st.tnext && |p| > 0 {
      CellsIncreaseAppend(elems, dt, p, i);
    }
  }

  lemma {:induction false} GridScanInv(elems: seq<Entry>, dt: real, i: nat)
    requires dt > 0.0 && 0 < |elems| && i <= |elems|
    ensures GridInv(elems, dt, i, GridScan(elems, dt, i))
  {
    if i > 0 {
      GridScanInv(elems, dt, i - 1);
      GridInvStep(elems, dt, i - 1, GridScan(elems, dt, i - 1));
    }
  }

  /** Time-step mode of cli.py, loop part: the first entry is selected, the
      selected entries keep input order, their timesteps strictly increase,
      and no two of them fall into the same grid cell
      [t0 + k*dt, t0 + (k+1)*dt). */
  lemma GridSelectionOrdered(elems: seq<Entry>, dt: real)
    requires dt > 0.0 && 0 < |elems|
    ensures var p := GridScan(elems, dt, |elems|).picks;
            |p| > 0 && p[0] == 0 && Increasing(p) &&
            forall a, b :: 0 <= a < b < |p| ==>
              elems[p[a]].timestep < elems[p[b]].timestep &&
              Cell(elems[0].timestep, dt, elems[p[a]].timestep)
                < Cell(elems[0].timestep, dt, elems[p[b]].timestep)
  {
    var p := GridScan(elems, dt, |elems|).picks;
    GridScanInv(elems, dt, |elems|);
    forall a, b | 0 <= a < b < |p|
      ensures elems[p[a]].timestep < elems[p[b]].timestep
    {
      CellOrder(elems[0].timestep, dt, elems[p[a]].timestep, elems[p[b]].timestep);
    }
  }

  /** The whole cli.py result in index terms: it never goes backwards, it
      is strictly increasing except that its last index may repeat the one
      before it, and the final index is present whenever `inc_final` holds
      and t0 < tfinal. */
  lemma GridSubsetOrder(elems: seq<Entry>, dt: real, incFinal: bool)
    requires dt > 0.0 && 0 < |elems|
    ensures var r := GridSubset(elems, dt, incFinal);
            |r| > 0 && r[0] == 0 &&
            (forall a, b :: 0 <= a < b < |r| ==> r[a] <= r[b]) &&
            (forall a, b :: 0 <= a < b < |r| - 1 ==> r[a] < r[b])
    ensures incFinal && elems[0].timestep < elems[|elems| - 1].timestep ==>
            GridSubset(elems, dt, incFinal)[|GridSubset(elems, dt, incFinal)| - 1] == |elems| - 1
  {
    GridSelectionOrdered(elems, dt);
  }

  /** The loop of cli.py as it is written: `tlast` is set once and never
      reassigned, `subset` grows by appending. */
  method SelectByGrid(elems: seq<Entry>, tStep: real, incFinal: bool) returns (subset: seq<Entry>)
    requires 0 < |elems| && tStep > 0.0
    ensures subset == Pick(elems, GridSubset(elems, tStep, incFinal))
  {
    var tlast := elems[0].timestep;
    var tnext := elems[0].timestep;
    var tfinal := elems[|elems| - 1].timestep;
    subset := [];
    ghost var picks: seq<nat> := [];
    for i := 0 to |elems|
      invariant GridScan(elems, tStep, i) == Scan(picks, tnext)
      invariant InRange(picks, i)
      invariant subset == Pick(elems, picks)
    {
      var tcurr := elems[i].timestep;
      if tcurr >= tnext {
        subset := subset + [elems[i]];
        picks := picks + [i];
        var ndiff := ((tcurr - tlast) / tStep).Floor;
        tnext := tlast + (ndiff as real + 1.0) * tStep;
      }
    }
    if incFinal && tlast < tfinal {
      subset := subset + [elems[|elems| - 1]];
      picks := picks + [|elems| - 1];
    }
  }

  /** `create_subset_pvd` of cli.py up to writing the document: a positive
      time step wins over any count, a count above 2 selects count mode, and
      anything else raises. A time-step run on a manifest without DataSet
      elements fails at `elems[0]`. */
  method CreateSubset(elems: seq<Entry>, nsubset: int, tStep: real, incFinal: bool)
    returns (r: Result<seq<Entry>>)
    ensures tStep > 0.0 && |elems| == 0 ==> r == Err(EmptyCollection)
    ensures tStep > 0.0 && |elems| > 0 ==> r == Ok(Pick(elems, GridSubset(elems, tStep, incFinal)))
    ensures tStep <= 0.0 && nsubset > 2 ==> r == Ok(Slicing.CountSubset(elems, nsubset, incFinal))
    ensures tStep <= 0.0 && nsubset <= 2 ==> r == Err(NoCriterion)
  {
    if tStep > 0.0 {
      if |elems| == 0 {
        return Err(EmptyCollection);
      }
      var subset := SelectByGrid(elems, tStep, incFinal);
      r := Ok(subset);
    } else if nsubset > 2 {
      var subset := Slicing.SelectByCount(elems, nsubset, incFinal);
      r := Ok(subset);
    } else {
      r := Err(NoCriterion);
    }
  }

  /** Timesteps [0, 1, 2, 5, 6, 10], dt = 3, final included: the loop picks
      0, 5, 6 and 10 (thresholds 3, 6, 9, 12), and since t0 < 10 the final
      entry is appended a second time: [0, 5, 6, 10, 10]. */
  lemma GridDuplicatesFinal(f: seq<string>)
    requires |f| == 6
    ensures var elems := [Entry(0.0, f[0]), Entry(1.0, f[1]), Entry(2.0, f[2]),
                          Entry(5.0, f[3]), Entry(6.0, f[4]), Entry(10.0, f[5])];
            GridSubset(elems, 3.0, true) == [0, 3, 4, 5, 5]
  {
    var elems := [Entry(0.0, f[0]), Entry(1.0, f[1]), Entry(2.0, f[2]),
                  Entry(5.0, f[3]), Entry(6.0, f[4]), Entry(10.0, f[5])];
    assert Cell(0.0, 3.0, 0.0) == 0;
    assert Cell(0.0, 3.0, 5.0) == 1;
    assert Cell(0.0, 3.0, 6.0) == 2;
    assert Cell(0.0, 3.0, 10.0) == 3;
    assert GridScan(elems, 3.0, 1) == Scan([0], 3.0);
    assert GridScan(elems, 3.0, 3) == Scan([0], 3.0);
    assert GridScan(elems, 3.0, 4) == Scan([0, 3], 6.0);
    assert GridScan(elems, 3.0, 5) == Scan([0, 3, 4], 9.0);
    assert GridScan(elems, 3.0, 6) == Scan([0, 3, 4, 5], 12.0);
  }
}
