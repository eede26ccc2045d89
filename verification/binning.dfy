/** Resampling of one light curve onto a fixed phase grid
    (`LightCurve.bin_light_curve` in both copies of fit_light_curve.py).

    The scripts copy builds the grid with `np.arange(-10, 100, bin_size)`,
    rejects light curves of three rows or fewer, collapses repeated phases with
    `np.unique` (first occurrence wins) and interpolates linearly with NaN
    outside the observed span. The top-level copy uses the fixed grid
    `np.linspace(-20, 100, 121)` and `np.interp`, with no row count check and no
    de-duplication. */
module Binning {
  import opened Common

  /** One photometric row: phase in days and absolute magnitude. */
  datatype Sample = Sample(phase: real, mag: real)

  /** The outcome of `bin_light_curve`: `(None, None)` for a short light curve,
      otherwise the grid and the resampled magnitudes. */
  datatype Binned = Short | Curve(grid: seq<real>, values: seq<Num>)

  const GridStart: int := -10
  const GridStop: int := 100

  /** The phases of the samples are strictly increasing. */
  predicate StrictlyIncreasing(s: seq<Sample>)
  {
    forall i, j :: 0 <= i < j < |s| ==> s[i].phase < s[j].phase
  }

  /** The set of phases observed in `s`. */
  function PhaseSet(s: seq<Sample>): set<real>
  {
    set i | 0 <= i < |s| :: s[i].phase
  }

  // ---------------------------------------------------------------- grids

  /** Lemma: multiplying by a non-negative number keeps the order. */
  lemma MulMono(k: int, m: int, b: int)
    requires k <= m && b >= 0
    ensures k * b <= m * b
  {
    assert m * b - k * b == (m - k) * b;
  }

  /** Lemma: multiplying by a positive number keeps strict order. */
  lemma MulStrict(i: int, j: int, b: int)
    requires i < j && b > 0
    ensures i * b < j * b
  {
    MulMono(1, j - i, b);
    assert j * b - i * b == (j - i) * b;
  }

  /** Lemma: the ceiling quotient `n` of `a` by `b` is the least count with `n * b >= a`. */
  lemma CeilDiv(a: nat, b: int)
    requires b > 0
    ensures ((a + b - 1) / b) * b >= a
    ensures forall k :: 0 <= k < (a + b - 1) / b ==> k * b < a
  {
    var n := (a + b - 1) / b;
    var r := (a + b - 1) % b;
    assert n * b + r == a + b - 1;
    assert (n - 1) * b == n * b - b;
    forall k | 0 <= k < n
      ensures k * b < a
    {
      MulMono(k, n - 1, b);
    }
  }

  /** `np.arange(-10, 100, binSize)`: every `-10 + k * binSize` below 100, in
      order; empty for a negative step. A zero step is refused by the caller. */
  function ArangeGrid(binSize: int): (g: seq<real>)
    requires binSize != 0
    ensures binSize < 0 ==> g == []
    ensures binSize > 0 ==> forall k :: 0 <= k < |g| ==>
      g[k] == (GridStart + k * binSize) as real && g[k] < GridStop as real
    ensures binSize > 0 ==> GridStart + |g| * binSize >= GridStop
    ensures binSize > 0 ==> StrictlyAscending(g)
  {
    if binSize < 0 then []
    else
      var n := (GridStop - GridStart + binSize - 1) / binSize;
      CeilDiv(GridStop - GridStart, binSize);
      var g := seq(n, k => (GridStart + k * binSize) as real);
      assert StrictlyAscending(g) by {
        forall i, j | 0 <= i < j < |g|
          ensures g[i] < g[j]
        {
          MulStrict(i, j, binSize);
        }
      }
      g
  }

  /** `np.linspace(start, stop, num)`: `num` evenly spaced points from `start`
      to `stop` inclusive. */
  function Linspace(start: real, stop: real, num: nat): (g: seq<real>)
    requires num >= 2
    ensures |g| == num && g[0] == start && g[num - 1] == stop
    ensures forall k :: 0 <= k < num - 1 ==> g[k + 1] - g[k] == (stop - start) / (num - 1) as real
  {
    var step := (stop - start) / (num - 1) as real;
    seq(num, k => start + k as real * step)
  }

  /** The fixed grid of the top-level copy: `np.linspace(-20, 100, 121)`. */
  function FixedGrid(): (g: seq<real>)
    ensures |g| == 121
    ensures forall k :: 0 <= k < |g| ==> g[k] == (-20 + k) as real
  {
    Linspace(-20.0, 100.0, 121)
  }

  // ---------------------------------------------------------- de-duplication

  /** The index of the first sample observed at phase `p`. */
  function FirstIndex(s: seq<Sample>, p: real): (i: nat)
    requires p in PhaseSet(s)
    ensures i < |s| && s[i].phase == p
    ensures forall j :: 0 <= j < i ==> s[j].phase != p
  {
    if s[0].phase == p then 0
    else
      assert p in PhaseSet(s[1..]) by {
        var j :| 0 <= j < |s| && s[j].phase == p;
        assert s[1..][j - 1].phase == p;
      }
      1 + FirstIndex(s[1..], p)
  }

  /** The magnitude of the first sample observed at phase `p`. */
  function FirstMag(s: seq<Sample>, p: real): real
    requires p in PhaseSet(s)
  {
    s[FirstIndex(s, p)].mag
  }

  /** Lemma: in a strictly increasing sequence each sample is the first (and only)
      one at its phase. */
  lemma FirstMagOfIncreasing(d: seq<Sample>, k: nat)
    requires StrictlyIncreasing(d) && k < |d|
    ensures d[k].phase in PhaseSet(d) && FirstMag(d, d[k].phase) == d[k].mag
  {
    assert d[k].phase in PhaseSet(d);
    var i := FirstIndex(d, d[k].phase);
    assert i == k;
  }

  /** Lemma: the phase set and first magnitudes of `[x] + t`, in terms of `t`. */
  lemma ConsFirst(x: Sample, t: seq<Sample>)
    ensures PhaseSet([x] + t) == {x.phase} + PhaseSet(t)
    ensures forall p :: p in PhaseSet([x] + t) ==>
      FirstMag([x] + t, p) == if p == x.phase then x.mag else FirstMag(t, p)
  {
    var s := [x] + t;
    assert s[1..] == t;
    forall p | p in PhaseSet(t)
      ensures p in PhaseSet(s)
    {
      var j :| 0 <= j < |t| && t[j].phase == p;
      assert s[j + 1].phase == p;
    }
    assert s[0].phase == x.phase;
  }

  /** Lemma: putting `x` in front of a strictly increasing sequence whose
      phases all exceed its own keeps the order and lets `x` decide its phase. */
  lemma PrependSmaller(x: Sample, t: seq<Sample>)
    requires StrictlyIncreasing(t)
    requires forall p :: p in PhaseSet(t) ==> x.phase < p
    ensures StrictlyIncreasing([x] + t)
    ensures PhaseSet([x] + t) == {x.phase} + PhaseSet(t)
    ensures forall p :: p in PhaseSet([x] + t) ==>
      FirstMag([x] + t, p) == if p == x.phase then x.mag else FirstMag(t, p)
  {
    ConsFirst(x, t);
    forall j | 0 <= j < |t|
      ensures x.phase < t[j].phase
    {
      assert t[j].phase in PhaseSet(t);
    }
  }

  /** `r` is `d` with `x` put in at its phase: still strictly increasing, one
      more phase at most, and `x` decides the magnitude at its own phase. */
  ghost predicate Upserted(d: seq<Sample>, x: Sample, r: seq<Sample>)
  {
    && StrictlyIncreasing(r)
    && PhaseSet(r) == PhaseSet(d) + {x.phase}
    && forall p :: p in PhaseSet(r) ==>
         FirstMag(r, p) == if p == x.phase then x.mag else FirstMag(d, p)
  }

  /** Lemma: a sample before every sample of `d` goes in front. */
  lemma UpsertBefore(d: seq<Sample>, x: Sample)
    requires StrictlyIncreasing(d) && (|d| > 0 ==> x.phase < d[0].phase)
    ensures Upserted(d, x, [x] + d)
  {
    LeastPhase(d);
    PrependSmaller(x, d);
  }

  /** Lemma: a sample at the phase of the first sample replaces it. */
  lemma UpsertReplace(d: seq<Sample>, x: Sample)
    requires StrictlyIncreasing(d) && |d| > 0 && x.phase == d[0].phase
    ensures Upserted(d, x, [x] + d[1..])
  {
    var t := d[1..];
    TailOfIncreasing(d);
    LeastPhase(d);
    assert forall p :: p in PhaseSet(t) ==> x.phase < p;
    PrependSmaller(x, t);
    assert PhaseSet([x] + t) == PhaseSet(d) + {x.phase};
  }

  /** Lemma: when `x` comes after the first sample, that sample stays in front
      of the upserted tail. */
  lemma UpsertBehind(d: seq<Sample>, x: Sample, u: seq<Sample>)
    requires StrictlyIncreasing(d) && |d| > 0 && d[0].phase < x.phase
    requires Upserted(d[1..], x, u)
    ensures Upserted(d, x, [d[0]] + u)
  {
    TailOfIncreasing(d);
    LeastPhase(d);
    FirstMagOfIncreasing(d, 0);
    PrependSmaller(d[0], u);
  }

  /** Insert `x` into a strictly increasing sequence, replacing the sample that
      has the same phase if there is one. */
  function Upsert(d: seq<Sample>, x: Sample): (r: seq<Sample>)
    requires StrictlyIncreasing(d)
    ensures Upserted(d, x, r)
    ensures |r| <= |d| + 1
  {
    if |d| == 0 then
      UpsertBefore(d, x);
      [x] + d
    else if x.phase < d[0].phase then
      UpsertBefore(d, x);
      [x] + d
    else if x.phase == d[0].phase then
      UpsertReplace(d, x);
      [x] + d[1..]
    else
      var u := Upsert(d[1..], x);
      UpsertBehind(d, x, u);
      [d[0]] + u
  }

  /** `np.unique(phase, return_index=True)` followed by `absMag[unique_args]`:
      the distinct phases in ascending order, each with the magnitude of its
      first occurrence in the input. */
  function Dedup(s: seq<Sample>): (d: seq<Sample>)
    ensures StrictlyIncreasing(d)
    ensures PhaseSet(d) == PhaseSet(s)
    ensures forall p :: p in PhaseSet(s) ==> FirstMag(d, p) == FirstMag(s, p)
    ensures |d| <= |s|
  {
    if |s| == 0 then []
    else
      var t := Dedup(s[1..]);
      ConsFirst(s[0], s[1..]);
      assert [s[0]] + s[1..] == s;
      Upsert(t, s[0])
  }

  /** Lemma: every entry that survives de-duplication carries the magnitude of
      the first input row observed at its phase. */
  lemma DedupKeepsFirstOccurrence(s: seq<Sample>, k: nat)
    requires k < |Dedup(s)|
    ensures Dedup(s)[k].phase in PhaseSet(s)
    ensures Dedup(s)[k].mag == s[FirstIndex(s, Dedup(s)[k].phase)].mag
  {
    var d := Dedup(s);
    FirstMagOfIncreasing(d, k);
  }

  /** Lemma: dropping the first sample of a strictly increasing sequence drops
      exactly its phase and keeps the magnitudes at the other phases. */
  lemma TailOfIncreasing(a: seq<Sample>)
    requires StrictlyIncreasing(a) && |a| > 0
    ensures PhaseSet(a[1..]) == PhaseSet(a) - {a[0].phase}
    ensures forall p :: p in PhaseSet(a[1..]) ==> FirstMag(a[1..], p) == FirstMag(a, p)
  {
    ConsFirst(a[0], a[1..]);
    assert [a[0]] + a[1..] == a;
    forall p | p in PhaseSet(a[1..])
      ensures p > a[0].phase
    {
      var j :| 0 <= j < |a[1..]| && a[1..][j].phase == p;
      assert a[1..][j] == a[j + 1];
    }
  }

  /** Lemma: a non-empty sequence observes the phase of its first sample, and
      when it is strictly increasing that phase is the least one. */
  lemma LeastPhase(a: seq<Sample>)
    ensures |a| > 0 <==> PhaseSet(a) != {}
    ensures |a| > 0 ==> a[0].phase in PhaseSet(a)
    ensures |a| > 0 && StrictlyIncreasing(a) ==> forall p :: p in PhaseSet(a) ==> a[0].phase <= p
  {
    if |a| > 0 {
      assert a[0].phase in PhaseSet(a);
    }
  }

  /** Lemma: two strictly increasing sequences with the same phases and the same
      magnitude at each phase are equal. */
  lemma {:induction false} IncreasingUnique(a: seq<Sample>, b: seq<Sample>)
    requires StrictlyIncreasing(a) && StrictlyIncreasing(b)
    requires PhaseSet(a) == PhaseSet(b)
    requires forall p :: p in PhaseSet(a) ==> FirstMag(a, p) == FirstMag(b, p)
    ensures a == b
    decreases |a|
  {
    LeastPhase(a);
    LeastPhase(b);
    if |a| > 0 {
      assert b[0].phase <= a[0].phase && a[0].phase <= b[0].phase;
      FirstMagOfIncreasing(a, 0);
      FirstMagOfIncreasing(b, 0);
      assert a[0] == b[0];
      TailOfIncreasing(a);
      TailOfIncreasing(b);
      IncreasingUnique(a[1..], b[1..]);
      assert a == [a[0]] + a[1..] && b == [b[0]] + b[1..];
    }
  }

  /** Lemma: de-duplication is idempotent, and leaves an already strictly
      increasing light curve untouched. */
  lemma DedupIdempotent(s: seq<Sample>)
    ensures Dedup(Dedup(s)) == Dedup(s)
    ensures StrictlyIncreasing(s) ==> Dedup(s) == s
  {
    IncreasingUnique(Dedup(Dedup(s)), Dedup(s));
    if StrictlyIncreasing(s) {
      IncreasingUnique(Dedup(s), s);
    }
  }

  /** Lemma: de-duplication leaves fewer than two samples exactly when every row
      shares one phase. */
  lemma DedupShortIffOnePhase(s: seq<Sample>)
    requires |s| > 0
    ensures |Dedup(s)| < 2 <==> forall i :: 0 <= i < |s| ==> s[i].phase == s[0].phase
  {
    var d := Dedup(s);
    assert s[0].phase in PhaseSet(s);
    if |d| >= 2 {
      assert d[0].phase in PhaseSet(s) && d[1].phase in PhaseSet(s);
      var i :| 0 <= i < |s| && s[i].phase == d[0].phase;
      var j :| 0 <= j < |s| && s[j].phase == d[1].phase;
      assert s[i].phase != s[j].phase;
    } else {
      assert |d| == 1 by {
        assert s[0].phase in PhaseSet(d);
      }
      forall i | 0 <= i < |s|
        ensures s[i].phase == s[0].phase
      {
        assert s[i].phase in PhaseSet(d);
        assert s[0].phase in PhaseSet(d);
      }
    }
  }

  // ----------------------------------------------------------- interpolation

  /** The straight line through samples `a` and `b`, evaluated at `x`. */
  function Lerp(a: Sample, b: Sample, x: real): real
    requires a.phase < b.phase
  {
    a.mag + (b.mag - a.mag) * (x - a.phase) / (b.phase - a.phase)
  }

  /** Lemma: a fraction `t` of `d` lies between 0 and `d`. */
  lemma ScaleWithin(d: real, t: real)
    requires 0.0 <= t <= 1.0
    ensures d >= 0.0 ==> 0.0 <= d * t <= d
    ensures d < 0.0 ==> d <= d * t <= 0.0
  {
    assert d - d * t == d * (1.0 - t);
  }

  /** Lemma: `d * u / w` is `d` times the fraction `u / w`, which lies in
      `[0, 1]` when `0 <= u <= w`. */
  lemma Fraction(d: real, u: real, w: real)
    requires w > 0.0
    ensures d * u / w == d * (u / w)
    ensures 0.0 <= u <= w ==> 0.0 <= u / w <= 1.0
    ensures d * w / w == d && d * 0.0 / w == 0.0
  {
  }

  /** Lemma: between its end points the line stays between their magnitudes,
      and at the end points it takes their magnitudes. */
  lemma LerpBetween(a: Sample, b: Sample, x: real)
    requires a.phase < b.phase
    ensures a.phase <= x <= b.phase ==>
      (a.mag <= Lerp(a, b, x) <= b.mag) || (b.mag <= Lerp(a, b, x) <= a.mag)
    ensures Lerp(a, b, a.phase) == a.mag && Lerp(a, b, b.phase) == b.mag
  {
    var d, w := b.mag - a.mag, b.phase - a.phase;
    Fraction(d, x - a.phase, w);
    if a.phase <= x <= b.phase {
      var t := (x - a.phase) / w;
      ScaleWithin(d, t);
      assert Lerp(a, b, x) == a.mag + d * t;
      if d >= 0.0 {
        assert a.mag <= Lerp(a, b, x) <= b.mag;
      } else {
        assert b.mag <= Lerp(a, b, x) <= a.mag;
      }
    }
    assert b.phase - a.phase == w && a.phase - a.phase == 0.0;
  }

  /** Linear interpolation through strictly increasing knots, NaN outside the
      span of their phases (`interp1d(kind='slinear', bounds_error=False,
      fill_value=NaN)` and `np.interp(left=NaN, right=NaN)` alike). */
  function Interp(knots: seq<Sample>, x: real): (r: Num)
    requires StrictlyIncreasing(knots)
    ensures r.Some? <==> |knots| > 0 && knots[0].phase <= x <= knots[|knots| - 1].phase
    decreases |knots|
  {
    if |knots| == 0 || x < knots[0].phase then None
    else if x == knots[0].phase then Some(knots[0].mag)
    else if |knots| == 1 then None
    else if x < knots[1].phase then Some(Lerp(knots[0], knots[1], x))
    else Interp(knots[1..], x)
  }

  /** Lemma: at a sample phase the interpolant equals that sample's magnitude. */
  lemma {:induction false} InterpAtKnot(knots: seq<Sample>, i: nat)
    requires StrictlyIncreasing(knots) && i < |knots|
    ensures Interp(knots, knots[i].phase) == Some(knots[i].mag)
    decreases i
  {
    if i > 0 {
      assert knots[0].phase < knots[i].phase;
      if |knots| > 1 {
        assert knots[1].phase <= knots[i].phase;
      }
      assert knots[1..][i - 1] == knots[i];
      InterpAtKnot(knots[1..], i - 1);
    }
  }

  /** Lemma: between two consecutive knots the interpolant is the straight line
      through them, so it lies between their magnitudes. */
  lemma {:induction false} InterpBracketed(knots: seq<Sample>, i: nat, x: real)
    requires StrictlyIncreasing(knots) && i + 1 < |knots|
    requires knots[i].phase <= x <= knots[i + 1].phase
    ensures Interp(knots, x) == Some(Lerp(knots[i], knots[i + 1], x))
    ensures var v := Interp(knots, x).value;
      (knots[i].mag <= v <= knots[i + 1].mag) || (knots[i + 1].mag <= v <= knots[i].mag)
    decreases i
  {
    LerpBetween(knots[i], knots[i + 1], x);
    if i == 0 {
      if x == knots[0].phase {
      } else if x == knots[1].phase {
        InterpAtKnot(knots, 1);
      }
    } else {
      assert knots[0].phase < knots[i].phase;
      assert knots[1].phase <= knots[i].phase;
      if x == knots[1].phase {
        assert i == 1;
        InterpAtKnot(knots, 1);
      } else {
        assert knots[1..][i - 1] == knots[i] && knots[1..][i] == knots[i + 1];
        InterpBracketed(knots[1..], i - 1, x);
      }
    }
  }

  /** The interpolant sampled at every grid point. */
  function Resample(knots: seq<Sample>, grid: seq<real>): (v: seq<Num>)
    requires StrictlyIncreasing(knots)
    ensures |v| == |grid|
    ensures forall k :: 0 <= k < |grid| ==>
      (v[k].None? <==> |knots| == 0 || grid[k] < knots[0].phase || grid[k] > knots[|knots| - 1].phase)
  {
    seq(|grid|, k requires 0 <= k < |grid| => Interp(knots, grid[k]))
  }

  /** Lemma: a grid point that coincides with a knot takes the knot's magnitude,
      and a grid point between two consecutive knots takes the line through them. */
  lemma ResampleInside(knots: seq<Sample>, grid: seq<real>, k: nat, i: nat)
    requires StrictlyIncreasing(knots) && k < |grid| && i + 1 < |knots|
    requires knots[i].phase <= grid[k] <= knots[i + 1].phase
    ensures Resample(knots, grid)[k] == Some(Lerp(knots[i], knots[i + 1], grid[k]))
  {
    InterpBracketed(knots, i, grid[k]);
  }

  // ----------------------------------------------------------- the two copies

  /** `bin_light_curve` of scripts/fit_light_curve.py. */
  function BinLightCurve(samples: seq<Sample>, binSize: int): (r: Result<Binned>)
    ensures binSize == 0 <==> r == Failure(ZeroDivisionError)
    ensures binSize != 0 && |samples| <= 3 ==> r == Success(Short)
    ensures binSize != 0 && |samples| > 3 ==>
      (r == Failure(ValueError) <==> forall i :: 0 <= i < |samples| ==> samples[i].phase == samples[0].phase)
    ensures r.Success? && r.value.Curve? ==>
      r.value.grid == ArangeGrid(binSize) && |r.value.values| == |r.value.grid|
  {
    if binSize == 0 then Failure(ZeroDivisionError)
    else
      var grid := ArangeGrid(binSize);
      if |samples| <= 3 then Success(Short)
      else
        var knots := Dedup(samples);
        DedupShortIffOnePhase(samples);
        if |knots| < 2 then Failure(ValueError)
        else Success(Curve(grid, Resample(knots, grid)))
  }

  /** Lemma: when the scripts copy produces a curve, it is the interpolant of the
      de-duplicated samples on the arange grid. */
  lemma BinLightCurveIsResample(samples: seq<Sample>, binSize: int)
    requires BinLightCurve(samples, binSize).Success? && BinLightCurve(samples, binSize).value.Curve?
    ensures |Dedup(samples)| >= 2 && binSize != 0
    ensures BinLightCurve(samples, binSize).value.values == Resample(Dedup(samples), ArangeGrid(binSize))
  {
  }

  /** Lemma: a grid point of the scripts curve is NaN exactly when it lies below
      every observed phase or above every observed phase. */
  lemma BinnedNanOutsideSpan(samples: seq<Sample>, binSize: int, k: nat)
    requires BinLightCurve(samples, binSize).Success? && BinLightCurve(samples, binSize).value.Curve?
    requires k < |ArangeGrid(binSize)|
    ensures var g := ArangeGrid(binSize)[k];
      BinLightCurve(samples, binSize).value.values[k].None? <==>
        (forall i :: 0 <= i < |samples| ==> g < samples[i].phase) ||
        (forall i :: 0 <= i < |samples| ==> g > samples[i].phase)
  {
    BinLightCurveIsResample(samples, binSize);
    var g := ArangeGrid(binSize)[k];
    var d := Dedup(samples);
    LeastPhase(d);
    assert d[0].phase in PhaseSet(samples) && d[|d| - 1].phase in PhaseSet(samples);
    forall i | 0 <= i < |samples|
      ensures d[0].phase <= samples[i].phase <= d[|d| - 1].phase
    {
      assert samples[i].phase in PhaseSet(d);
      var j :| 0 <= j < |d| && d[j].phase == samples[i].phase;
      assert j == |d| - 1 || d[j].phase < d[|d| - 1].phase;
    }
  }

  /** Lemma: a grid point that coincides with an observed phase takes the
      magnitude of the first row observed at that phase. */
  lemma BinnedAtObservedPhase(samples: seq<Sample>, binSize: int, k: nat)
    requires BinLightCurve(samples, binSize).Success? && BinLightCurve(samples, binSize).value.Curve?
    requires k < |ArangeGrid(binSize)| && ArangeGrid(binSize)[k] in PhaseSet(samples)
    ensures BinLightCurve(samples, binSize).value.values[k] == Some(FirstMag(samples, ArangeGrid(binSize)[k]))
  {
    BinLightCurveIsResample(samples, binSize);
    var d := Dedup(samples);
    var i := FirstIndex(d, ArangeGrid(binSize)[k]);
    InterpAtKnot(d, i);
    FirstMagOfIncreasing(d, i);
  }

  /** `bin_light_curve` of the top-level fit_light_curve.py: `np.interp` on the
      fixed 121-point grid. `np.interp` trusts its caller to pass increasing
      phases, and refuses an empty sample list. */
  function BinOnFixedGrid(samples: seq<Sample>): (r: Result<Binned>)
    requires StrictlyIncreasing(samples)
    ensures r.Failure? <==> |samples| == 0
    ensures r.Failure? ==> r.error == ValueError
    ensures r.Success? ==> r.value.Curve? && r.value.grid == FixedGrid() && |r.value.values| == 121
    ensures r.Success? ==> forall k :: 0 <= k < 121 ==>
      (r.value.values[k].None? <==> (-20 + k) as real < samples[0].phase || (-20 + k) as real > samples[|samples| - 1].phase)
  {
    if |samples| == 0 then Failure(ValueError)
    else Success(Curve(FixedGrid(), Resample(samples, FixedGrid())))
  }

  /** Lemma: on the fixed grid, a grid point that coincides with a sample phase
      takes that sample's magnitude. */
  lemma FixedGridAtSample(samples: seq<Sample>, i: nat, k: nat)
    requires StrictlyIncreasing(samples) && i < |samples| && k < 121
    requires samples[i].phase == (-20 + k) as real
    ensures BinOnFixedGrid(samples).value.values[k] == Some(samples[i].mag)
  {
    InterpAtKnot(samples, i);
  }
}
