/**
 `create_subset_pvd` as the script gen_subset_pvd.py writes it. In
 time-step mode each selection moves `tlast` to the selected timestep and
 the next threshold to tlast + dt, and the final DataSet is appended only
 when the last selected timestep lies strictly below it. Count mode is the
 shared one of module Slicing.
 */
module GenSubset {
  import opened Types
  import Slicing

  /** State of the selection loop after the first i entries: the indices
      appended so far, `tlast` and `tnext`. */
  datatype Scan = Scan(picks: seq<nat>, tlast: real, tnext: real)

  /** One iteration of the loop of gen_subset_pvd.py, on entry i: an entry
      whose timestep reaches `tnext` is appended, becomes `tlast`, and moves
      `tnext` to tlast + dt. */
  function GapStep(elems: seq<Entry>, dt: real, i: nat, st: Scan): Scan
    requires i < |elems|
  {
    var t := elems[i].timestep;
    if t >= st.tnext then Scan(st.picks + [i], t, t + dt) else st
  }

  /** The loop of gen_subset_pvd.py run over elems[..i]. */
  function GapScan(elems: seq<Entry>, dt: real, i: nat): (st: Scan)
    requires dt > 0.0 && 0 < |elems| && i <= |elems|
    ensures forall k :: 0 <= k < |st.picks| ==> st.picks[k] < i
  {
    if i == 0 then Scan([], elems[0].timestep, elems[0].timestep)
    else GapStep(elems, dt, i - 1, GapScan(elems, dt, i - 1))
  }

  /** Indices of the time-step-mode result: the loop's picks, then the final
      index when `inc_final` holds and `tlast` < tfinal. */
  function GapSubset(elems: seq<Entry>, dt: real, incFinal: bool): (r: seq<nat>)
    requires dt > 0.0 && 0 < |elems|
    ensures InRange(r, |elems|)
  {
    var N := |elems|;
    var st := GapScan(elems, dt, N);
    st.picks + (if incFinal && st.tlast < elems[N - 1].timestep then [N - 1] else [])
  }

  /** Any two selected entries are at least dt apart in time. */
  ghost predicate Spaced(elems: seq<Entry>, dt: real, p: seq<nat>)
    requires InRange(p, |elems|)
  {
    forall a, b :: 0 <= a < b < |p| ==> elems[p[a]].timestep + dt <= elems[p[b]].timestep
  }

  /** What the loop keeps true after each entry. */
  ghost predicate GapInv(elems: seq<Entry>, dt: real, i: nat, st: Scan)
    requires dt > 0.0 && 0 < |elems| && i <= |elems|
  {
    var p := st.picks;
    InRange(p, i) && Increasing(p)
    && (i > 0 ==> |p| > 0 && p[0] == 0)
    && Spaced(elems, dt, p)
    && (|p| == 0 ==> st.tlast == elems[0].timestep && st.tnext == elems[0].timestep)
    && (|p| > 0 ==> st.tlast == elems[p[|p| - 1]].timestep && st.tnext == st.tlast + dt)
  }

  /** Appending an entry at or past the last selected timestep plus dt keeps
      the selection spaced. */
  lemma SpacedAppend(elems: seq<Entry>, dt: real, p: seq<nat>, i: nat)
    requires dt > 0.0 && i < |elems| && InRange(p, |elems|) && |p| > 0
    requires Spaced(elems, dt, p)
    requires elems[i].timestep >= elems[p[|p| - 1]].timestep + dt
    ensures Spaced(elems, dt, p + [i])
  {
    var p' := p + [i];
    forall a, b | 0 <= a < b < |p'|
      ensures elems[p'[a]].timestep + dt <= elems[p'[b]].timestep
    {
      if b == |p| && a < |p| - 1 {
        assert elems[p[a]].timestep + dt <= elems[p[|p| - 1]].timestep;
      }
    }
  }

  /** One iteration keeps the loop invariant. */
  lemma GapInvStep(elems: seq<Entry>, dt: real, i: nat, st: Scan)
    requires dt > 0.0 && i < |elems| && GapInv(elems, dt, i, st)
    ensures GapInv(elems, dt, i + 1, GapStep(elems, dt, i, st))
  {
    var p := st.picks;
    if elems[i].timestep >= st.tnext && |p| > 0 {
      SpacedAppend(elems, dt, p, i);
    }
  }

  lemma {:induction false} GapScanInv(elems: seq<Entry>, dt: real, i: nat)
    requires dt > 0.0 && 0 < |elems| && i <= |elems|
    ensures GapInv(elems, dt, i, GapScan(elems, dt, i))
  {
    if i > 0 {
      GapScanInv(elems, dt, i - 1);
      GapInvStep(elems, dt, i - 1, GapScan(elems, dt, i - 1));
    }
  }

  /** Time-step mode of gen_subset_pvd.py, loop part: the first entry is
      selected, the selected entries keep input order, and any two of them
      are at least dt apart in time (so consecutive ones are). */
  lemma GapSelectionSpaced(elems: seq<Entry>, dt: real)
    requires dt > 0.0 && 0 < |elems|
    ensures var p := GapScan(elems, dt, |elems|).picks;
            |p| > 0 && p[0] == 0 && Increasing(p) &&
            forall a, b :: 0 <= a < b < |p| ==> elems[p[a]].timestep + dt <= elems[p[b]].timestep
  {
    GapScanInv(elems, dt, |elems|);
  }

  /** The whole result, final entry included: no entry is taken twice, the
      selected timesteps strictly increase, and every gap except possibly
      the one before an appended final entry is at least dt. */
  lemma GapSubsetIncreasing(elems: seq<Entry>, dt: real, incFinal: bool)
    requires dt > 0.0 && 0 < |elems|
    ensures var r := GapSubset(elems, dt, incFinal);
            var p := GapScan(elems, dt, |elems|).picks;
            Increasing(r) &&
            (forall k :: 0 <= k < |r| - 1 ==> elems[r[k]].timestep < elems[r[k + 1]].timestep) &&
            (forall k :: 0 <= k < |p| - 1 ==> elems[r[k]].timestep + dt <= elems[r[k + 1]].timestep)
  {
    var N := |elems|;
    var st := GapScan(elems, dt, N);
    var p := st.picks;
    var r := GapSubset(elems, dt, incFinal);
    GapScanInv(elems, dt, N);
    if |r| > |p| {
      assert r == p + [N - 1];
      if p[|p| - 1] == N - 1 {
        assert false;
      }
      forall a, b | 0 <= a < b < |r|
        ensures r[a] < r[b]
      {
        if b == |p| {
          assert r[a] <= p[|p| - 1];
        }
      }
      assert elems[r[|p| - 1]].timestep < elems[r[|p|]].timestep;
    }
  }

  /** Timesteps ordered in the input, so a non-decreasing sequence. */
  ghost predicate Sorted(elems: seq<Entry>)
  {
    forall i, j :: 0 <= i < j < |elems| ==> elems[i].timestep <= elems[j].timestep
  }

  /** With non-decreasing timesteps and `inc_final`, the result ends at the
      final timestep: either the loop reached it, or the final entry was
      appended. */
  lemma GapEndsAtFinal(elems: seq<Entry>, dt: real)
    requires dt > 0.0 && 0 < |elems| && Sorted(elems)
    ensures var r := GapSubset(elems, dt, true);
            |r| > 0 && elems[r[|r| - 1]].timestep == elems[|elems| - 1].timestep
  {
    var N := |elems|;
    var st := GapScan(elems, dt, N);
    GapScanInv(elems, dt, N);
    var p := st.picks;
    if p[|p| - 1] < N - 1 {
      assert st.tlast <= elems[N - 1].timestep;
    }
  }

  /** The loop of gen_subset_pvd.py: `subset` grows by appending, `tlast`
      and `tnext` move with each selection. */
  method SelectByGap(elems: seq<Entry>, tStep: real, incFinal: bool) returns (subset: seq<Entry>)
    requires 0 < |elems| && tStep > 0.0
    ensures subset == Pick(elems, GapSubset(elems, tStep, incFinal))
  {
    var tlast := elems[0].timestep;
    var tnext := elems[0].timestep;
    var tfinal := elems[|elems| - 1].timestep;
    subset := [];
    ghost var picks: seq<nat> := [];
    for i := 0 to |elems|
      invariant GapScan(elems, tStep, i) == Scan(picks, tlast, tnext)
      invariant InRange(picks, i)
      invariant subset == Pick(elems, picks)
    {
      var tcurr := elems[i].timestep;
      if tcurr >= tnext {
        subset := subset + [elems[i]];
        picks := picks + [i];
        tlast := tcurr;
        tnext := tlast + tStep;
      }
    }
    if incFinal && tlast < tfinal {
      subset := subset + [elems[|elems| - 1]];
      picks := picks + [|elems| - 1];
    }
  }

  /** `create_subset_pvd` of gen_subset_pvd.py up to writing the document:
      a positive time step wins over any count, a count above 2 selects
      count mode, and anything else raises. */
  method CreateSubset(elems: seq<Entry>, nsubset: int, tStep: real, incFinal: bool)
    returns (r: Result<seq<Entry>>)
    ensures tStep > 0.0 && |elems| == 0 ==> r == Err(EmptyCollection)
    ensures tStep > 0.0 && |elems| > 0 ==> r == Ok(Pick(elems, GapSubset(elems, tStep, incFinal)))
    ensures tStep <= 0.0 && nsubset > 2 ==> r == Ok(Slicing.CountSubset(elems, nsubset, incFinal))
    ensures tStep <= 0.0 && nsubset <= 2 ==> r == Err(NoCriterion)
  {
    if tStep > 0.0 {
      if |elems| == 0 {
        return Err(EmptyCollection);
      }
      var subset := SelectByGap(elems, tStep, incFinal);
      r := Ok(subset);
    } else if nsubset > 2 {
      var subset := Slicing.SelectByCount(elems, nsubset, incFinal);
      r := Ok(subset);
    } else {
      r := Err(NoCriterion);
    }
  }

  /** Timesteps [0, 1, 2, 5, 6, 10], dt = 3, final included: the loop picks
      0, 5 and 10 (thresholds 3, 8, 13), and 10 is already the final
      timestep, so nothing is appended: [0, 5, 10]. */
  lemma GapExample(f: seq<string>)
    requires |f| == 6
    ensures var elems := [Entry(0.0, f[0]), Entry(1.0, f[1]), Entry(2.0, f[2]),
                          Entry(5.0, f[3]), Entry(6.0, f[4]), Entry(10.0, f[5])];
            GapSubset(elems, 3.0, true) == [0, 3, 5]
  {
    var elems := [Entry(0.0, f[0]), Entry(1.0, f[1]), Entry(2.0, f[2]),
                  Entry(5.0, f[3]), Entry(6.0, f[4]), Entry(10.0, f[5])];
    assert GapScan(elems, 3.0, 1) == Scan([0], 0.0, 3.0);
    assert GapScan(elems, 3.0, 2) == Scan([0], 0.0, 3.0);
    assert GapScan(elems, 3.0, 3) == Scan([0], 0.0, 3.0);
    assert GapScan(elems, 3.0, 4) == Scan([0, 3], 5.0, 8.0);
    assert GapScan(elems, 3.0, 5) == Scan([0, 3], 5.0, 8.0);
    assert GapScan(elems, 3.0, 6) == Scan([0, 3, 5], 10.0, 13.0);
  }
}
