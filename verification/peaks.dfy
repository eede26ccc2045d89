/** Peak extraction (`LightCurve.get_peaks`, identical in both copies of
    fit_light_curve.py).

    Candidate peaks are the strict interior local minima of magnitude
    (`argrelextrema(y, np.less)`), troughs the strict interior local maxima
    (`argrelextrema(y, np.greater)`). Each trough then marks for deletion the
    first peak, in phase order, lying strictly within `PeakSep` days of it, and
    the marked peaks are removed from both the phase and the flux arrays
    (`np.delete`). */
module Peaks {
  import opened Common
  import Binning

  /** Which comparator `argrelextrema` is given. */
  datatype Kind = Minimum | Maximum

  /** Peaks and troughs survive `np.delete` in two parallel arrays. */
  datatype PeakList = PeakList(phases: seq<real>, fluxes: seq<real>)

  /** Minimum peak-to-trough separation in days (`peakSep = 4`). */
  const PeakSep: real := 4.0

  function Opposite(kind: Kind): Kind
  {
    if kind == Minimum then Maximum else Minimum
  }

  /** Index `i` is a strict local extremum of `y` with both neighbours present:
      `argrelextrema` with `order=1` and `mode='clip'` compares the end points
      with themselves, so they never qualify, and a NaN neighbour makes the
      comparison false. */
  predicate IsExtremum(y: seq<Num>, i: int, kind: Kind)
  {
    && 1 <= i < |y| - 1
    && match kind
       case Minimum => Less(y[i], y[i - 1]) && Less(y[i], y[i + 1])
       case Maximum => Greater(y[i], y[i - 1]) && Greater(y[i], y[i + 1])
  }

  /** The extrema of `y` at index `from` or later, in ascending order. */
  function ExtremaFrom(y: seq<Num>, kind: Kind, from: nat): (r: seq<nat>)
    ensures forall j :: 0 <= j < |r| ==> from <= r[j] && IsExtremum(y, r[j], kind)
    ensures forall i :: from <= i && IsExtremum(y, i, kind) ==> i in r
    ensures forall j, k :: 0 <= j < k < |r| ==> r[j] < r[k]
    decreases |y| - from
  {
    if from + 1 >= |y| then []
    else (if IsExtremum(y, from, kind) then [from] else []) + ExtremaFrom(y, kind, from + 1)
  }

  /** `argrelextrema(y, np.less)` (peaks) or `argrelextrema(y, np.greater)`
      (troughs): exactly the extremum indices, ascending. No index is both a
      peak and a trough. */
  function RelExtrema(y: seq<Num>, kind: Kind): (r: seq<nat>)
    ensures forall j :: 0 <= j < |r| ==> IsExtremum(y, r[j], kind) && !IsExtremum(y, r[j], Opposite(kind))
    ensures forall i :: IsExtremum(y, i, kind) <==> i in r
    ensures forall j, k :: 0 <= j < k < |r| ==> r[j] < r[k]
  {
    ExtremaFrom(y, kind, 1)
  }

  /** The elements of `xs` at the given indices (numpy fancy indexing). */
  function Pick<T>(xs: seq<T>, idx: seq<nat>): (r: seq<T>)
    requires forall j :: 0 <= j < |idx| ==> idx[j] < |xs|
    ensures |r| == |idx| && forall j :: 0 <= j < |idx| ==> r[j] == xs[idx[j]]
  {
    seq(|idx|, j requires 0 <= j < |idx| => xs[idx[j]])
  }

  /** The trough lies strictly within `PeakSep` days of the peak:
      `(peak - peakSep) < trough < (peak + peakSep)`. */
  predicate Near(peak: real, trough: real)
  {
    peak - PeakSep < trough < peak + PeakSep
  }

  /** The inner loop of the suppression rule: the first peak, in order, near
      the trough, if any (the `break` after the first match). */
  function FirstNear(peaks: seq<real>, trough: real): (r: Option<nat>)
    ensures r.Some? ==> r.value < |peaks| && Near(peaks[r.value], trough)
    ensures r.Some? ==> forall j :: 0 <= j < r.value ==> !Near(peaks[j], trough)
    ensures r.None? <==> forall j :: 0 <= j < |peaks| ==> !Near(peaks[j], trough)
  {
    if |peaks| == 0 then None
    else if Near(peaks[0], trough) then Some(0)
    else match FirstNear(peaks[1..], trough)
      case None => None
      case Some(i) => Some(i + 1)
  }

  /** Some trough picks candidate `i` as its first near peak. */
  ghost predicate PickedByTrough(peaks: seq<real>, troughs: seq<real>, i: int)
  {
    exists k :: 0 <= k < |troughs| && FirstNear(peaks, troughs[k]) == Some(i)
  }

  /** Lemma: a candidate is picked by some trough exactly when an earlier
      trough or the last one picks it. */
  lemma PickedSplit(peaks: seq<real>, troughs: seq<real>)
    requires |troughs| > 0
    ensures forall i :: PickedByTrough(peaks, troughs, i) <==>
      PickedByTrough(peaks, troughs[..|troughs| - 1], i) || FirstNear(peaks, troughs[|troughs| - 1]) == Some(i)
  {
    var front := troughs[..|troughs| - 1];
    forall i
      ensures PickedByTrough(peaks, troughs, i) <==>
        PickedByTrough(peaks, front, i) || FirstNear(peaks, troughs[|troughs| - 1]) == Some(i)
    {
      if PickedByTrough(peaks, front, i) {
        var k :| 0 <= k < |front| && FirstNear(peaks, front[k]) == Some(i);
        assert troughs[k] == front[k];
      }
      if PickedByTrough(peaks, troughs, i) {
        var k :| 0 <= k < |troughs| && FirstNear(peaks, troughs[k]) == Some(i);
        if k < |front| {
          assert front[k] == troughs[k];
        }
      }
    }
  }

  /** `deleteIndexes` after the outer loop: for each trough in order, the index
      of the first peak near it, when there is one. */
  function DeleteIndexes(peaks: seq<real>, troughs: seq<real>): (d: seq<nat>)
    ensures |d| <= |troughs|
    ensures forall j :: 0 <= j < |d| ==> d[j] < |peaks|
    ensures forall j :: 0 <= j < |d| ==> PickedByTrough(peaks, troughs, d[j])
    ensures forall i :: PickedByTrough(peaks, troughs, i) ==> i in d
  {
    if |troughs| == 0 then []
    else
      var front := troughs[..|troughs| - 1];
      var rest := DeleteIndexes(peaks, front);
      var t := troughs[|troughs| - 1];
      PickedSplit(peaks, troughs);
      match FirstNear(peaks, t)
      case None => rest
      case Some(i) => rest + [i]
  }

  /** The indices below `n` that are not listed in `d`, ascending. */
  function KeptIndexes(n: nat, d: seq<nat>): (k: seq<nat>)
    ensures forall j :: 0 <= j < |k| ==> k[j] < n && k[j] !in d
    ensures forall i :: 0 <= i < n && i !in d ==> i in k
    ensures forall j, l :: 0 <= j < l < |k| ==> k[j] < k[l]
  {
    if n == 0 then []
    else KeptIndexes(n - 1, d) + (if n - 1 in d then [] else [n - 1])
  }

  /** The distinct listed indices that fall below `n`. */
  function ListedBelow(n: nat, d: seq<nat>): set<nat>
  {
    set i | i in d && i < n
  }

  /** Lemma: an index below `n` is either kept or listed, never both, so the
      kept count is `n` less the number of DISTINCT listed indices below `n`. */
  lemma {:induction false} KeptCount(n: nat, d: seq<nat>)
    ensures |KeptIndexes(n, d)| == n - |ListedBelow(n, d)|
  {
    if n == 0 {
      assert ListedBelow(0, d) == {};
    } else {
      KeptCount(n - 1, d);
      if n - 1 in d {
        assert ListedBelow(n, d) == ListedBelow(n - 1, d) + {n - 1};
      } else {
        assert ListedBelow(n, d) == ListedBelow(n - 1, d);
      }
    }
  }

  /** Lemma: a sequence lists at most as many distinct values as it has entries. */
  lemma {:induction false} DistinctAtMostLength(n: nat, d: seq<nat>)
    ensures |ListedBelow(n, d)| <= |d|
  {
    if |d| > 0 {
      var t := d[..|d| - 1];
      var x := d[|d| - 1];
      DistinctAtMostLength(n, t);
      assert d == t + [x];
      assert forall i :: i in d <==> i in t || i == x;
      if x < n && x !in ListedBelow(n, t) {
        assert ListedBelow(n, d) == ListedBelow(n, t) + {x};
      } else {
        assert ListedBelow(n, d) == ListedBelow(n, t);
      }
    }
  }

  /** `np.delete(xs, d)`: the elements whose index is not listed in `d`, in
      order. An index listed twice is removed once. */
  function Delete<T>(xs: seq<T>, d: seq<nat>): (r: seq<T>)
    ensures |r| == |KeptIndexes(|xs|, d)| == |xs| - |ListedBelow(|xs|, d)|
    ensures |r| >= |xs| - |d|
    ensures forall j :: 0 <= j < |r| ==> r[j] == xs[KeptIndexes(|xs|, d)[j]]
  {
    KeptCount(|xs|, d);
    DistinctAtMostLength(|xs|, d);
    Pick(xs, KeptIndexes(|xs|, d))
  }

  /** The candidate indices that survive suppression: exactly those no trough
      picks as its first near peak, ascending, at most one fewer per trough. */
  function Survivors(peakPhases: seq<real>, troughPhases: seq<real>): (keep: seq<nat>)
    ensures keep == KeptIndexes(|peakPhases|, DeleteIndexes(peakPhases, troughPhases))
    ensures forall j, l :: 0 <= j < l < |keep| ==> keep[j] < keep[l]
    ensures forall j :: 0 <= j < |keep| ==> keep[j] < |peakPhases|
    ensures forall m :: 0 <= m < |peakPhases| ==> (m in keep <==> !PickedByTrough(peakPhases, troughPhases, m))
    ensures |keep| >= |peakPhases| - |troughPhases|
  {
    var d := DeleteIndexes(peakPhases, troughPhases);
    var keep := KeptIndexes(|peakPhases|, d);
    KeptCount(|peakPhases|, d);
    DistinctAtMostLength(|peakPhases|, d);
    keep
  }

  /** The suppression step on its own (`np.delete` of the same indexes from
      both arrays): survivors keep their order and their pairing of phase with
      flux. */
  function Suppress(peakPhases: seq<real>, peakFluxes: seq<real>, troughPhases: seq<real>): (p: PeakList)
    requires |peakPhases| == |peakFluxes|
    ensures var keep := Survivors(peakPhases, troughPhases);
      && |p.phases| == |p.fluxes| == |keep|
      && forall j :: 0 <= j < |keep| ==> p.phases[j] == peakPhases[keep[j]] && p.fluxes[j] == peakFluxes[keep[j]]
  {
    var d := DeleteIndexes(peakPhases, troughPhases);
    var keep := Survivors(peakPhases, troughPhases);
    PeakList(Delete(peakPhases, d), Delete(peakFluxes, d))
  }

  /** Lemma: a candidate with no trough strictly within `PeakSep` days survives. */
  lemma IsolatedPeakSurvives(peakPhases: seq<real>, peakFluxes: seq<real>, troughPhases: seq<real>, m: nat)
    requires |peakPhases| == |peakFluxes| && m < |peakPhases|
    requires forall k :: 0 <= k < |troughPhases| ==> !Near(peakPhases[m], troughPhases[k])
    ensures var p := Suppress(peakPhases, peakFluxes, troughPhases);
      exists j :: 0 <= j < |p.phases| && p.phases[j] == peakPhases[m] && p.fluxes[j] == peakFluxes[m]
  {
    var keep := Survivors(peakPhases, troughPhases);
    var p := Suppress(peakPhases, peakFluxes, troughPhases);
    assert !PickedByTrough(peakPhases, troughPhases, m) by {
      forall k | 0 <= k < |troughPhases|
        ensures FirstNear(peakPhases, troughPhases[k]) != Some(m)
      {
        assert !Near(peakPhases[m], troughPhases[k]);
      }
    }
    assert m in keep;
    var j :| 0 <= j < |keep| && keep[j] == m;
    assert p.phases[j] == peakPhases[m] && p.fluxes[j] == peakFluxes[m];
  }

  /** `xBins[peakIndexes]`: the phases of the candidate peaks. */
  function PeakPhases(grid: seq<real>, y: seq<Num>): (r: seq<real>)
    requires |grid| == |y|
    ensures |r| == |RelExtrema(y, Minimum)|
  {
    Pick(grid, RelExtrema(y, Minimum))
  }

  /** `yBins[peakIndexes]`: the magnitudes of the candidate peaks, never NaN. */
  function PeakFluxes(y: seq<Num>): (r: seq<real>)
    ensures |r| == |RelExtrema(y, Minimum)|
    ensures forall j :: 0 <= j < |r| ==> y[RelExtrema(y, Minimum)[j]] == Some(r[j])
  {
    var idx := RelExtrema(y, Minimum);
    seq(|idx|, j requires 0 <= j < |idx| => y[idx[j]].value)
  }

  /** `xBins[troughIndexes]`: the phases of the troughs. */
  function TroughPhases(grid: seq<real>, y: seq<Num>): (r: seq<real>)
    requires |grid| == |y|
    ensures |r| == |RelExtrema(y, Maximum)|
  {
    Pick(grid, RelExtrema(y, Maximum))
  }

  /** The body of `get_peaks` after binning: candidates and troughs of the
      curve, then suppression. At most one candidate is lost per trough. */
  function ExtractPeaks(grid: seq<real>, y: seq<Num>): (p: PeakList)
    requires |grid| == |y|
    ensures |p.phases| == |p.fluxes| <= |RelExtrema(y, Minimum)|
    ensures |p.phases| + |RelExtrema(y, Maximum)| >= |RelExtrema(y, Minimum)|
  {
    Suppress(PeakPhases(grid, y), PeakFluxes(y), TroughPhases(grid, y))
  }

  /** Lemma: the `j`-th returned peak sits at candidate `Survivors(..)[j]`. */
  lemma ExtractPeaksAt(grid: seq<real>, y: seq<Num>, j: nat)
    requires |grid| == |y| && j < |ExtractPeaks(grid, y).phases|
    ensures var keep := Survivors(PeakPhases(grid, y), TroughPhases(grid, y));
      var i := RelExtrema(y, Minimum)[keep[j]];
      && j < |keep| && keep[j] < |RelExtrema(y, Minimum)|
      && IsExtremum(y, i, Minimum)
      && ExtractPeaks(grid, y).phases[j] == grid[i]
      && y[i] == Some(ExtractPeaks(grid, y).fluxes[j])
  {
    var phases, fluxes, troughs := PeakPhases(grid, y), PeakFluxes(y), TroughPhases(grid, y);
    var keep := Survivors(phases, troughs);
    var p := Suppress(phases, fluxes, troughs);
    assert p == ExtractPeaks(grid, y);
    var m := keep[j];
    assert p.phases[j] == phases[m] && p.fluxes[j] == fluxes[m];
  }

  /** The curve has a strict local minimum of magnitude `flux` at grid phase `phase`. */
  ghost predicate MinimumAt(grid: seq<real>, y: seq<Num>, phase: real, flux: real)
    requires |grid| == |y|
  {
    exists i :: IsExtremum(y, i, Minimum) && phase == grid[i] && y[i] == Some(flux)
  }

  /** Lemma: the `j`-th returned peak is a strict local minimum of the curve. */
  lemma ExtractedIsMinimum(grid: seq<real>, y: seq<Num>, p: PeakList, j: nat)
    requires |grid| == |y| && p == ExtractPeaks(grid, y) && j < |p.phases|
    ensures MinimumAt(grid, y, p.phases[j], p.fluxes[j])
  {
    ExtractPeaksAt(grid, y, j);
    var keep := Survivors(PeakPhases(grid, y), TroughPhases(grid, y));
    var i := RelExtrema(y, Minimum)[keep[j]];
    assert IsExtremum(y, i, Minimum) && p.phases[j] == grid[i] && y[i] == Some(p.fluxes[j]);
  }

  /** Lemma: every returned peak is a strict local minimum of the curve, with the
      grid phase and the magnitude found there. */
  lemma ExtractPeaksAreMinima(grid: seq<real>, y: seq<Num>)
    requires |grid| == |y|
    ensures var p := ExtractPeaks(grid, y);
      forall j :: 0 <= j < |p.phases| ==> MinimumAt(grid, y, p.phases[j], p.fluxes[j])
  {
    var p := ExtractPeaks(grid, y);
    forall j | 0 <= j < |p.phases|
      ensures MinimumAt(grid, y, p.phases[j], p.fluxes[j])
    {
      ExtractedIsMinimum(grid, y, p, j);
    }
  }

  /** Lemma: on a strictly ascending grid the surviving peaks are in strictly
      ascending phase order. */
  lemma ExtractPeaksAscending(grid: seq<real>, y: seq<Num>)
    requires |grid| == |y| && StrictlyAscending(grid)
    ensures StrictlyAscending(ExtractPeaks(grid, y).phases)
  {
    var idx := RelExtrema(y, Minimum);
    var p := ExtractPeaks(grid, y);
    var keep := Survivors(PeakPhases(grid, y), TroughPhases(grid, y));
    forall j, l | 0 <= j < l < |p.phases|
      ensures p.phases[j] < p.phases[l]
    {
      ExtractPeaksAt(grid, y, j);
      ExtractPeaksAt(grid, y, l);
      assert keep[j] < keep[l];
      assert idx[keep[j]] < idx[keep[l]];
    }
  }

  /** Lemma: every peak of the curve with no trough of the curve strictly within
      `PeakSep` days of it is returned, with its flux. */
  lemma ExtractPeaksKeepsIsolated(grid: seq<real>, y: seq<Num>, i: nat)
    requires |grid| == |y| && IsExtremum(y, i, Minimum)
    requires forall t :: IsExtremum(y, t, Maximum) ==> !Near(grid[i], grid[t])
    ensures var p := ExtractPeaks(grid, y);
      exists j :: 0 <= j < |p.phases| && p.phases[j] == grid[i] && Some(p.fluxes[j]) == y[i]
  {
    var idx := RelExtrema(y, Minimum);
    var tidx := RelExtrema(y, Maximum);
    var phases, fluxes, troughs := PeakPhases(grid, y), PeakFluxes(y), TroughPhases(grid, y);
    var keep := Survivors(phases, troughs);
    var p := ExtractPeaks(grid, y);
    assert p == Suppress(phases, fluxes, troughs);
    assert i in idx;
    var m :| 0 <= m < |idx| && idx[m] == i;
    assert !PickedByTrough(phases, troughs, m) by {
      forall k | 0 <= k < |troughs|
        ensures FirstNear(phases, troughs[k]) != Some(m)
      {
        assert troughs[k] == grid[tidx[k]];
        assert IsExtremum(y, tidx[k], Maximum);
        assert !Near(phases[m], troughs[k]);
      }
    }
    assert m in keep;
    var j :| 0 <= j < |keep| && keep[j] == m;
    assert p.phases[j] == grid[i] && Some(p.fluxes[j]) == y[i];
  }

  /** A strict local minimum with no strict local maximum within 4 days. */
  ghost predicate IsolatedMinimum(grid: seq<real>, y: seq<Num>, i: int)
    requires |grid| == |y|
  {
    IsExtremum(y, i, Minimum) && forall t :: IsExtremum(y, t, Maximum) ==> !Near(grid[i], grid[t])
  }

  /** `p` is a peak list of the binned curve `(grid, y)`: every reported pair
      is a strict local minimum, and every isolated minimum is reported. */
  ghost predicate PeaksOfCurve(grid: seq<real>, y: seq<Num>, p: PeakList)
    requires |grid| == |y|
  {
    && |p.phases| == |p.fluxes|
    && (forall j :: 0 <= j < |p.phases| ==> MinimumAt(grid, y, p.phases[j], p.fluxes[j]))
    && (forall i :: IsolatedMinimum(grid, y, i) ==>
          exists j :: 0 <= j < |p.phases| && p.phases[j] == grid[i] && Some(p.fluxes[j]) == y[i])
  }

  /** Lemma: the peaks `get_peaks` extracts are a peak list of the curve. */
  lemma ExtractPeaksOfCurve(grid: seq<real>, y: seq<Num>)
    requires |grid| == |y|
    ensures PeaksOfCurve(grid, y, ExtractPeaks(grid, y))
  {
    ExtractPeaksAreMinima(grid, y);
    var p := ExtractPeaks(grid, y);
    forall i | IsolatedMinimum(grid, y, i)
      ensures exists j :: 0 <= j < |p.phases| && p.phases[j] == grid[i] && Some(p.fluxes[j]) == y[i]
    {
      ExtractPeaksKeepsIsolated(grid, y, i);
    }
  }

  /** `get_peaks` of scripts/fit_light_curve.py: `(None, None)` when the
      binning reports a short light curve. */
  function GetPeaks(samples: seq<Binning.Sample>, binSize: int): (r: Result<Option<PeakList>>)
    ensures binSize != 0 && |samples| <= 3 ==> r == Success(None)
    ensures r.Failure? <==> Binning.BinLightCurve(samples, binSize).Failure?
    ensures r.Success? && r.value.Some? ==> |r.value.value.phases| == |r.value.value.fluxes|
    ensures r.Success? && r.value.Some? ==> StrictlyAscending(r.value.value.phases)
    ensures r.Success? && r.value.Some? ==>
      var b := Binning.BinLightCurve(samples, binSize);
      b.Success? && b.value.Curve? && |b.value.grid| == |b.value.values|
      && PeaksOfCurve(b.value.grid, b.value.values, r.value.value)
  {
    match Binning.BinLightCurve(samples, binSize)
    case Failure(e) => Failure(e)
    case Success(Short) => Success(None)
    case Success(Curve(grid, values)) =>
      Binning.BinLightCurveIsResample(samples, binSize);
      assert StrictlyAscending(grid);
      ExtractPeaksAscending(grid, values);
      ExtractPeaksOfCurve(grid, values);
      Success(Some(ExtractPeaks(grid, values)))
  }

  /** `get_peaks` of the top-level fit_light_curve.py: no short-curve check, the
      fixed 121-point grid. */
  function GetPeaksFixedGrid(samples: seq<Binning.Sample>): (r: Result<PeakList>)
    requires Binning.StrictlyIncreasing(samples)
    ensures r.Failure? <==> |samples| == 0
    ensures r.Success? ==> |r.value.phases| == |r.value.fluxes| && StrictlyAscending(r.value.phases)
    ensures r.Success? ==> forall j :: 0 <= j < |r.value.phases| ==>
      -19.0 <= r.value.phases[j] <= 99.0
    ensures r.Success? ==> PeaksOfCurve(Binning.FixedGrid(), Binning.BinOnFixedGrid(samples).value.values, r.value)
  {
    match Binning.BinOnFixedGrid(samples)
    case Failure(e) => Failure(e)
    case Success(b) =>
      var grid := Binning.FixedGrid();
      assert StrictlyAscending(grid);
      ExtractPeaksAscending(grid, b.values);
      PeaksInsideGrid(grid, b.values);
      assert grid[1] == -19.0 && grid[|grid| - 2] == 99.0;
      ExtractPeaksOfCurve(grid, b.values);
      Success(ExtractPeaks(grid, b.values))
  }

  /** Lemma: the `j`-th returned peak sits at an interior grid point. */
  lemma PeakIndex(grid: seq<real>, y: seq<Num>, j: nat) returns (i: nat)
    requires |grid| == |y| && j < |ExtractPeaks(grid, y).phases|
    ensures 1 <= i < |y| - 1 && ExtractPeaks(grid, y).phases[j] == grid[i]
  {
    ExtractPeaksAt(grid, y, j);
    var keep := Survivors(PeakPhases(grid, y), TroughPhases(grid, y));
    i := RelExtrema(y, Minimum)[keep[j]];
  }

  /** Lemma: on an ascending grid, every returned peak lies between the
      second and the next-to-last grid point. */
  lemma PeaksInsideGrid(grid: seq<real>, y: seq<Num>)
    requires |grid| == |y| && StrictlyAscending(grid)
    ensures var p := ExtractPeaks(grid, y);
      forall j :: 0 <= j < |p.phases| ==> |grid| >= 3 && grid[1] <= p.phases[j] <= grid[|grid| - 2]
  {
    forall j | 0 <= j < |ExtractPeaks(grid, y).phases|
      ensures |grid| >= 3 && grid[1] <= ExtractPeaks(grid, y).phases[j] <= grid[|grid| - 2]
    {
      PeakInsideGrid(grid, y, j);
    }
  }

  /** Lemma: the `j`-th reported peak lies in that range. */
  lemma PeakInsideGrid(grid: seq<real>, y: seq<Num>, j: nat)
    requires |grid| == |y| && StrictlyAscending(grid) && j < |ExtractPeaks(grid, y).phases|
    ensures |grid| >= 3 && grid[1] <= ExtractPeaks(grid, y).phases[j] <= grid[|grid| - 2]
  {
    var i := PeakIndex(grid, y, j);
    var lo, mid, hi := grid[1], grid[i], grid[|grid| - 2];
    assert lo <= mid by {
      if i != 1 { assert grid[1] < grid[i]; }
    }
    assert mid <= hi by {
      if i != |grid| - 2 { assert grid[i] < grid[|grid| - 2]; }
    }
  }
}
