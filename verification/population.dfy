/** The population step of scripts/population_statistics.py: every object's
    binned curve, peaks and header are accumulated, the curves are averaged
    point by point ignoring NaN, and the surviving peaks are sorted into the
    first-maximum and second-maximum windows against the distance modulus. */
module Population {
  import opened Common
  import Binning
  import Peaks

  // ---------------------------------------------------------------------------
  // Generic sequence helpers

  function Min(a: nat, b: nat): nat
  {
    if a <= b then a else b
  }

  /** Python's `zip(xs, ys)`: pairs up to the shorter of the two. */
  function Zip<A, B>(xs: seq<A>, ys: seq<B>): (r: seq<(A, B)>)
    ensures |r| == Min(|xs|, |ys|)
    ensures forall k :: 0 <= k < |r| ==> r[k] == (xs[k], ys[k])
  {
    if |xs| == 0 || |ys| == 0 then [] else [(xs[0], ys[0])] + Zip(xs[1..], ys[1..])
  }

  // ---------------------------------------------------------------------------
  // Peak windows (plot_mu_vs_peaks)

  /** An open phase interval: `lo < phase < hi`, both ends excluded. */
  datatype Window = Window(lo: real, hi: real)

  predicate InWindow(w: Window, x: real)
  {
    w.lo < x < w.hi
  }

  /** The second-maximum window, 15 to 40 days. */
  const SecondMax: Window := Window(15.0, 40.0)

  /** The first-maximum window, -15 to 8 days. */
  const FirstMax: Window := Window(-15.0, 8.0)

  /** The three distance-modulus numbers `get_mu` reads from a header. */
  datatype Mu = Mu(snoopy: real, snoopyErr: real, lcdm: real)

  /** One plotted point: a peak's phase and flux against the object's
      `mu_Snoopy` with its error bar. */
  datatype Point = Point(phase: real, flux: real, mu: real, muErr: real)

  /** `peakPhases.any()`: some phase differs from zero. */
  function AnyNonZero(xs: seq<real>): (r: bool)
    ensures r <==> exists i :: 0 <= i < |xs| && xs[i] != 0.0
  {
    if |xs| == 0 then false else xs[0] != 0.0 || AnyNonZero(xs[1..])
  }

  /** Which objects are looked at: as written, those with a non-zero peak
      phase; as intended, those with at least one peak. */
  datatype Gate = AnyNonZeroPhase | HasPeaks

  function Admits(g: Gate, phases: seq<real>): bool
  {
    match g
    case AnyNonZeroPhase => AnyNonZero(phases)
    case HasPeaks => |phases| > 0
  }

  /** The point drawn for a (phase, flux) pair of an object with numbers `m`. */
  function PointOf(m: Mu, pair: (real, real)): Point
  {
    Point(pair.0, pair.1, m.snoopy, m.snoopyErr)
  }

  /** Position `j` holds exactly when pair `j`'s phase lies in `w`. */
  function WindowMask(pairs: seq<(real, real)>, w: Window): (mask: seq<bool>)
    ensures |mask| == |pairs|
    ensures forall j :: 0 <= j < |pairs| ==> (mask[j] <==> InWindow(w, pairs[j].0))
  {
    seq(|pairs|, j requires 0 <= j < |pairs| => InWindow(w, pairs[j].0))
  }

  /** The points of one object that land in window `w`, in peak order. */
  function WindowPoints(m: Mu, pairs: seq<(real, real)>, w: Window): (pts: seq<Point>)
    ensures |pts| == |TrueIndexes(WindowMask(pairs, w))|
    ensures forall pt :: pt in pts <==>
      pt.mu == m.snoopy && pt.muErr == m.snoopyErr && (pt.phase, pt.flux) in pairs && InWindow(w, pt.phase)
  {
    if |pairs| == 0 then []
    else
      var n := |pairs| - 1;
      var last := pairs[n];
      var rest := WindowPoints(m, pairs[..n], w);
      assert pairs == pairs[..n] + [last];
      assert WindowMask(pairs, w)[..n] == WindowMask(pairs[..n], w);
      if InWindow(w, last.0) then rest + [PointOf(m, last)] else rest
  }

  /** Lemma: the `k`-th point of a window is drawn from the `k`-th pair whose
      phase lies in the window. */
  lemma {:induction false} WindowPointsAt(m: Mu, pairs: seq<(real, real)>, w: Window, k: nat)
    requires k < |WindowPoints(m, pairs, w)|
    ensures TrueIndexes(WindowMask(pairs, w))[k] < |pairs|
    ensures WindowPoints(m, pairs, w)[k] == PointOf(m, pairs[TrueIndexes(WindowMask(pairs, w))[k]])
  {
    var n := |pairs| - 1;
    assert WindowMask(pairs, w)[..n] == WindowMask(pairs[..n], w);
    if k < |WindowPoints(m, pairs[..n], w)| {
      WindowPointsAt(m, pairs[..n], w, k);
    }
  }

  /** The number of peaks of the objects `g` admits that lie in window `w`:
      how far `count` advances for the second-maximum window. */
  function PeaksInWindow(g: Gate, objs: seq<(Mu, Peaks.PeakList)>, w: Window): nat
  {
    if |objs| == 0 then 0
    else
      var o := objs[|objs| - 1];
      PeaksInWindow(g, objs[..|objs| - 1], w)
        + (if Admits(g, o.1.phases) then |TrueIndexes(WindowMask(Zip(o.1.phases, o.1.fluxes), w))| else 0)
  }

  /** Object `o` puts point `pt` on the panel of window `w`. */
  predicate Contributes(g: Gate, o: (Mu, Peaks.PeakList), w: Window, pt: Point)
  {
    && Admits(g, o.1.phases)
    && pt.mu == o.0.snoopy && pt.muErr == o.0.snoopyErr
    && (pt.phase, pt.flux) in Zip(o.1.phases, o.1.fluxes)
    && InWindow(w, pt.phase)
  }

  /** Some object of `objs` puts `pt` on the panel of `w`. */
  ghost predicate ContributedBy(g: Gate, objs: seq<(Mu, Peaks.PeakList)>, w: Window, pt: Point)
  {
    exists k :: 0 <= k < |objs| && Contributes(g, objs[k], w, pt)
  }

  /** The points object `o` puts on the panel of `w`: none unless `g` admits it. */
  function ObjectPoints(g: Gate, o: (Mu, Peaks.PeakList), w: Window): (pts: seq<Point>)
    ensures |pts| == if Admits(g, o.1.phases) then |TrueIndexes(WindowMask(Zip(o.1.phases, o.1.fluxes), w))| else 0
    ensures forall pt :: pt in pts <==> Contributes(g, o, w, pt)
  {
    if Admits(g, o.1.phases) then WindowPoints(o.0, Zip(o.1.phases, o.1.fluxes), w) else []
  }

  /** Lemma: a point is contributed by `objs` exactly when it is contributed by
      all but the last object or by the last one. */
  lemma ContributedBySnoc(g: Gate, objs: seq<(Mu, Peaks.PeakList)>, w: Window)
    requires |objs| > 0
    ensures forall pt :: ContributedBy(g, objs, w, pt) <==>
      ContributedBy(g, objs[..|objs| - 1], w, pt) || Contributes(g, objs[|objs| - 1], w, pt)
  {
    var init := objs[..|objs| - 1];
    forall pt
      ensures ContributedBy(g, objs, w, pt) <==> ContributedBy(g, init, w, pt) || Contributes(g, objs[|objs| - 1], w, pt)
    {
      if ContributedBy(g, init, w, pt) {
        var k :| 0 <= k < |init| && Contributes(g, init[k], w, pt);
        assert objs[k] == init[k];
      }
      if ContributedBy(g, objs, w, pt) {
        var k :| 0 <= k < |objs| && Contributes(g, objs[k], w, pt);
        if k < |init| {
          assert objs[k] == init[k];
        }
      }
    }
  }

  /** The points of window `w` over all admitted objects, object by object. */
  function Panel(g: Gate, objs: seq<(Mu, Peaks.PeakList)>, w: Window): (pts: seq<Point>)
    ensures |pts| == PeaksInWindow(g, objs, w)
    ensures forall pt :: pt in pts <==> ContributedBy(g, objs, w, pt)
  {
    if |objs| == 0 then []
    else
      var rest := Panel(g, objs[..|objs| - 1], w);
      ContributedBySnoc(g, objs, w);
      rest + ObjectPoints(g, objs[|objs| - 1], w)
  }

  /** `plot_mu_vs_peaks` as a loop over `zip(muList, peaks)`: the points of the
      second-peak panels, those of the first-peak panels, and `count`. */
  method PlotMuVsPeaks(g: Gate, mus: seq<Mu>, peaks: seq<Peaks.PeakList>)
    returns (second: seq<Point>, first: seq<Point>, count: int)
    ensures second == Panel(g, Zip(mus, peaks), SecondMax)
    ensures first == Panel(g, Zip(mus, peaks), FirstMax)
    ensures count == |second| == PeaksInWindow(g, Zip(mus, peaks), SecondMax)
    ensures |first| == PeaksInWindow(g, Zip(mus, peaks), FirstMax)
    ensures forall pt :: !(pt in second && pt in first)
  {
    var objs := Zip(mus, peaks);
    second, first, count := [], [], 0;
    var k := 0;
    while k < |objs|
      invariant 0 <= k <= |objs|
      invariant second == Panel(g, objs[..k], SecondMax)
      invariant first == Panel(g, objs[..k], FirstMax)
      invariant count == |second|
    {
      var m, p := objs[k].0, objs[k].1;
      PanelStep(g, objs, k, SecondMax);
      PanelStep(g, objs, k, FirstMax);
      if Admits(g, p.phases) {
        var sec, fst := SplitWindows(m, Zip(p.phases, p.fluxes));
        second, first, count := second + sec, first + fst, count + |sec|;
      }
      k := k + 1;
    }
    assert objs[..k] == objs;
    PanelsDisjoint(g, objs);
  }

  /** Lemma: the panel of the first `k + 1` objects extends that of the first `k`
      by object `k`'s points. */
  lemma PanelStep(g: Gate, objs: seq<(Mu, Peaks.PeakList)>, k: nat, w: Window)
    requires k < |objs|
    ensures Panel(g, objs[..k + 1], w) == Panel(g, objs[..k], w)
      + (if Admits(g, objs[k].1.phases) then WindowPoints(objs[k].0, Zip(objs[k].1.phases, objs[k].1.fluxes), w) else [])
  {
    assert objs[..k + 1][..k] == objs[..k];
  }

  /** The inner loop of `plot_mu_vs_peaks` over one object's peaks: the points
      in the second-maximum window and those in the first-maximum window. */
  method SplitWindows(m: Mu, pairs: seq<(real, real)>) returns (sec: seq<Point>, fst: seq<Point>)
    ensures sec == WindowPoints(m, pairs, SecondMax)
    ensures fst == WindowPoints(m, pairs, FirstMax)
  {
    sec, fst := [], [];
    var i := 0;
    while i < |pairs|
      invariant 0 <= i <= |pairs|
      invariant sec == WindowPoints(m, pairs[..i], SecondMax)
      invariant fst == WindowPoints(m, pairs[..i], FirstMax)
    {
      var phase, flux := pairs[i].0, pairs[i].1;
      if 15.0 < phase < 40.0 {
        sec := sec + [PointOf(m, pairs[i])];
      }
      if -15.0 < phase < 8.0 {
        fst := fst + [PointOf(m, pairs[i])];
      }
      assert pairs[..i + 1][..i] == pairs[..i];
      i := i + 1;
    }
    assert pairs[..i] == pairs;
  }

  /** Lemma: the two windows do not overlap, so no point is on both panels. */
  lemma PanelsDisjoint(g: Gate, objs: seq<(Mu, Peaks.PeakList)>)
    ensures forall pt :: !(pt in Panel(g, objs, SecondMax) && pt in Panel(g, objs, FirstMax))
  {
    forall pt | pt in Panel(g, objs, SecondMax)
      ensures pt !in Panel(g, objs, FirstMax)
    {
      assert InWindow(SecondMax, pt.phase) by {
        var k :| 0 <= k < |objs| && Contributes(g, objs[k], SecondMax, pt);
      }
    }
  }

  /** Lemma: the two gates look at the same objects, and so draw the same
      panels, unless some object's peaks all sit at phase 0. */
  lemma {:induction false} GatesAgree(objs: seq<(Mu, Peaks.PeakList)>, w: Window)
    requires forall k :: 0 <= k < |objs| ==>
      |objs[k].1.phases| == 0 || exists i :: 0 <= i < |objs[k].1.phases| && objs[k].1.phases[i] != 0.0
    ensures Panel(AnyNonZeroPhase, objs, w) == Panel(HasPeaks, objs, w)
  {
    if |objs| > 0 {
      var init := objs[..|objs| - 1];
      assert forall k :: 0 <= k < |init| ==> init[k] == objs[k];
      GatesAgree(init, w);
      var o := objs[|objs| - 1];
      assert AnyNonZero(o.1.phases) == (|o.1.phases| > 0);
    }
  }

  /** Lemma: as written, an object whose only peak lies at phase 0, inside the
      first-maximum window, is left out of the first-peak panel; with the
      intended gate it is drawn. */
  lemma PeakAtZeroDropped()
    ensures var objs := [(Mu(33.0, 0.1, 33.0), Peaks.PeakList([0.0], [-18.0]))];
      && InWindow(FirstMax, 0.0)
      && Panel(AnyNonZeroPhase, objs, FirstMax) == []
      && Panel(HasPeaks, objs, FirstMax) == [Point(0.0, -18.0, 33.0, 0.1)]
  {
    var objs := [(Mu(33.0, 0.1, 33.0), Peaks.PeakList([0.0], [-18.0]))];
    assert objs[..0] == [];
    assert Zip([0.0], [-18.0]) == [(0.0, -18.0)];
    var pairs: seq<(real, real)> := [(0.0, -18.0)];
    assert pairs[..0] == [];
    assert WindowPoints(Mu(33.0, 0.1, 33.0), pairs, FirstMax) == [Point(0.0, -18.0, 33.0, 0.1)];
  }

  // ---------------------------------------------------------------------------
  // Per-object accumulation (plot_binned_light_curves)

  /** One supernova: its light-curve rows and its header. */
  datatype SnObject<H> = SnObject(samples: seq<Binning.Sample>, header: H)

  /** What the `try` body appends for one object; `None` plays Python's `None`. */
  datatype Entry<H> = Entry(xBins: Option<seq<real>>, yBins: Option<seq<Num>>,
                           peaks: Option<Peaks.PeakList>, header: H)

  /** The `try` body for one object: bin, find peaks, read the header. A short
      curve gives `(None, None)` twice over; it raises nothing. */
  function RunObject<H>(o: SnObject<H>, binSize: int): (r: Result<Entry<H>>)
    ensures r.Failure? <==> Binning.BinLightCurve(o.samples, binSize).Failure?
    ensures r.Failure? ==> r == Failure(Binning.BinLightCurve(o.samples, binSize).error)
    ensures r.Success? ==> r.value.header == o.header
    ensures r.Success? ==> (r.value.xBins.None? <==> |o.samples| <= 3)
    ensures r.Success? ==> r.value.xBins.None? == r.value.yBins.None? == r.value.peaks.None?
    ensures r.Success? && r.value.xBins.Some? ==>
      r.value.xBins.value == Binning.ArangeGrid(binSize) && |r.value.yBins.value| == |r.value.xBins.value|
    ensures r.Success? ==> Peaks.GetPeaks(o.samples, binSize) == Success(r.value.peaks)
  {
    match Binning.BinLightCurve(o.samples, binSize)
    case Failure(e) => Failure(e)
    case Success(Short) => Success(Entry(None, None, None, o.header))
    case Success(Curve(grid, values)) =>
      Success(Entry(Some(grid), Some(values), Some(Peaks.ExtractPeaks(grid, values)), o.header))
  }

  /** Lemma: the `try` body never raises `TypeError`, so `except TypeError`
      never fires. */
  lemma RunObjectNeverTypeError<H>(o: SnObject<H>, binSize: int)
    ensures RunObject(o, binSize) != Failure(TypeError)
  {
    var b := Binning.BinLightCurve(o.samples, binSize);
    if b.Failure? {
      assert b.error == ZeroDivisionError || b.error == ValueError;
    }
  }

  /** The four lists `plot_binned_light_curves` grows. */
  datatype Lists<H> = Lists(xBins: seq<Option<seq<real>>>, yBins: seq<Option<seq<Num>>>,
                           peaks: seq<Option<Peaks.PeakList>>, headers: seq<H>)

  /** The four lists have one entry per appended object. */
  predicate Lockstep<H>(l: Lists<H>)
  {
    |l.xBins| == |l.yBins| == |l.peaks| == |l.headers|
  }

  /** Number of outcomes that raised `TypeError`. */
  function TypeErrors<H>(runs: seq<Result<Entry<H>>>): (n: nat)
    ensures n <= |runs|
    ensures n == 0 <==> forall k :: 0 <= k < |runs| ==> runs[k] != Failure(TypeError)
  {
    if |runs| == 0 then 0
    else TypeErrors(runs[..|runs| - 1]) + (if runs[|runs| - 1] == Failure(TypeError) then 1 else 0)
  }

  /** The accumulation loop as written over the objects' outcomes: `TypeError`
      skips the object, any other exception propagates, and a normal outcome is
      appended to all four lists, `None` entries included. */
  function AccumulateAsWritten<H>(runs: seq<Result<Entry<H>>>): (r: Result<Lists<H>>)
    ensures r.Success? ==> Lockstep(r.value)
    ensures r.Success? ==> |r.value.headers| == |runs| - TypeErrors(runs)
    ensures r.Failure? ==> r.error != TypeError
    ensures r.Failure? <==> exists k :: 0 <= k < |runs| && runs[k].Failure? && runs[k].error != TypeError
    ensures r.Success? ==> forall j :: 0 <= j < |r.value.headers| ==>
      exists k :: 0 <= k < |runs| && runs[k].Success? && runs[k].value == Entry(r.value.xBins[j], r.value.yBins[j], r.value.peaks[j], r.value.headers[j])
  {
    if |runs| == 0 then Success(Lists([], [], [], []))
    else
      var init := runs[..|runs| - 1];
      var last := runs[|runs| - 1];
      assert forall k :: 0 <= k < |init| ==> init[k] == runs[k];
      match AccumulateAsWritten(init)
      case Failure(e) => Failure(e)
      case Success(acc) =>
        match last
        case Failure(e) => if e == TypeError then Success(acc) else Failure(e)
        case Success(en) =>
          Success(Lists(acc.xBins + [en.xBins], acc.yBins + [en.yBins], acc.peaks + [en.peaks], acc.headers + [en.header]))
  }

  /** The entries of the outcomes that raised nothing, in run order: what the
      accumulation as written appends. */
  function SuccessRuns<H>(runs: seq<Result<Entry<H>>>): (es: seq<Entry<H>>)
    ensures |es| <= |runs|
  {
    if |runs| == 0 then []
    else
      var last := runs[|runs| - 1];
      SuccessRuns(runs[..|runs| - 1]) + (if last.Success? then [last.value] else [])
  }

  /** Entry `j` of the four lists, as the entry a run would have produced. */
  function ListedEntry<H>(l: Lists<H>, j: nat): Entry<H>
    requires Lockstep(l) && j < |l.headers|
  {
    Entry(l.xBins[j], l.yBins[j], l.peaks[j], l.headers[j])
  }

  /** Lemma: as written, the accumulation appends the entry of every run that
      raised nothing, and only those, in run order. */
  lemma {:induction false} AppendsEverySuccess<H>(runs: seq<Result<Entry<H>>>)
    requires AccumulateAsWritten(runs).Success?
    ensures var l := AccumulateAsWritten(runs).value;
      && |l.headers| == |SuccessRuns(runs)|
      && forall j :: 0 <= j < |l.headers| ==> ListedEntry(l, j) == SuccessRuns(runs)[j]
  {
    if |runs| > 0 {
      var n := |runs| - 1;
      var init := runs[..n];
      assert forall k :: 0 <= k < n ==> init[k] == runs[k];
      AppendsEverySuccess(init);
      var acc := AccumulateAsWritten(init).value;
      var l := AccumulateAsWritten(runs).value;
      var es := SuccessRuns(runs);
      assert es == SuccessRuns(init) + (if runs[n].Success? then [runs[n].value] else []);
      forall j | 0 <= j < |l.headers|
        ensures ListedEntry(l, j) == es[j]
      {
        if j < |acc.headers| {
          assert ListedEntry(l, j) == ListedEntry(acc, j);
        }
      }
    }
  }

  /** The outcome of every object's `try` body. */
  function RunAll<H>(objs: seq<SnObject<H>>, binSize: int): (runs: seq<Result<Entry<H>>>)
    ensures |runs| == |objs|
    ensures forall k :: 0 <= k < |objs| ==> runs[k] == RunObject(objs[k], binSize)
  {
    seq(|objs|, k requires 0 <= k < |objs| => RunObject(objs[k], binSize))
  }

  /** Lemma: as written, no object is ever skipped; a successful run holds one
      entry per object, short curves included. */
  lemma NothingSkipped<H>(objs: seq<SnObject<H>>, binSize: int)
    requires AccumulateAsWritten(RunAll(objs, binSize)).Success?
    ensures |AccumulateAsWritten(RunAll(objs, binSize)).value.headers| == |objs|
  {
    var runs := RunAll(objs, binSize);
    forall k | 0 <= k < |runs|
      ensures runs[k] != Failure(TypeError)
    {
      RunObjectNeverTypeError(objs[k], binSize);
    }
  }

  /** Lemma: as written, a one-row light curve is appended as `None` entries
      instead of being skipped. */
  lemma ShortCurveAppended<H>(h: H)
    ensures var s := Binning.Sample(0.0, -18.0);
      var l := AccumulateAsWritten(RunAll([SnObject([s], h)], 1));
      l.Success? && l.value.xBins == [None] && l.value.yBins == [None] && l.value.peaks == [None]
  {
    var s := Binning.Sample(0.0, -18.0);
    var runs := RunAll([SnObject([s], h)], 1);
    assert runs == [Success(Entry(None, None, None, h))];
    assert runs[..0] == [];
  }

  /** The lists once short curves are skipped: every entry holds a curve. */
  datatype Curves<H> = Curves(xBins: seq<seq<real>>, yBins: seq<seq<Num>>,
                             peaks: seq<Peaks.PeakList>, headers: seq<H>)

  predicate CurvesLockstep<H>(c: Curves<H>)
  {
    |c.xBins| == |c.yBins| == |c.peaks| == |c.headers|
  }

  /** An outcome that yields a full entry. */
  predicate Full<H>(r: Result<Entry<H>>)
  {
    r.Success? && r.value.xBins.Some? && r.value.yBins.Some? && r.value.peaks.Some?
  }

  /** The accumulation as intended: short curves are skipped like a `TypeError`,
      other exceptions propagate. */
  function AccumulateSkipShort<H>(runs: seq<Result<Entry<H>>>): (r: Result<Curves<H>>)
    ensures r.Success? ==> CurvesLockstep(r.value)
    ensures r.Failure? <==> exists k :: 0 <= k < |runs| && runs[k].Failure? && runs[k].error != TypeError
  {
    if |runs| == 0 then Success(Curves([], [], [], []))
    else
      var init := runs[..|runs| - 1];
      var last := runs[|runs| - 1];
      assert forall k :: 0 <= k < |init| ==> init[k] == runs[k];
      match AccumulateSkipShort(init)
      case Failure(e) => Failure(e)
      case Success(acc) =>
        match last
        case Failure(e) => if e == TypeError then Success(acc) else Failure(e)
        case Success(en) =>
          if en.xBins.Some? && en.yBins.Some? && en.peaks.Some? then
            Success(Curves(acc.xBins + [en.xBins.value], acc.yBins + [en.yBins.value],
                           acc.peaks + [en.peaks.value], acc.headers + [en.header]))
          else Success(acc)
  }

  /** The full entries among the outcomes, in run order: what the corrected
      accumulation should keep. */
  function FullRuns<H>(runs: seq<Result<Entry<H>>>): (es: seq<Entry<H>>)
    ensures |es| <= |runs|
  {
    if |runs| == 0 then []
    else
      var last := runs[|runs| - 1];
      FullRuns(runs[..|runs| - 1]) + (if Full(last) then [last.value] else [])
  }

  /** Entry `j` of the kept lists, as the entry a run would have produced. */
  function KeptEntry<H>(c: Curves<H>, j: nat): Entry<H>
    requires CurvesLockstep(c) && j < |c.headers|
  {
    Entry(Some(c.xBins[j]), Some(c.yBins[j]), Some(c.peaks[j]), c.headers[j])
  }

  /** Lemma: the corrected accumulation keeps every full run, and only those,
      in run order. */
  lemma {:induction false} KeepsEveryFullRun<H>(runs: seq<Result<Entry<H>>>)
    requires AccumulateSkipShort(runs).Success?
    ensures var c := AccumulateSkipShort(runs).value;
      && |c.headers| == |FullRuns(runs)|
      && forall j :: 0 <= j < |c.headers| ==> KeptEntry(c, j) == FullRuns(runs)[j]
  {
    if |runs| > 0 {
      var n := |runs| - 1;
      var init := runs[..n];
      assert forall k :: 0 <= k < n ==> init[k] == runs[k];
      KeepsEveryFullRun(init);
      var acc := AccumulateSkipShort(init).value;
      var c := AccumulateSkipShort(runs).value;
      var es := FullRuns(runs);
      assert es == FullRuns(init) + (if Full(runs[n]) then [runs[n].value] else []);
      forall j | 0 <= j < |c.headers|
        ensures KeptEntry(c, j) == es[j]
      {
        if j < |acc.headers| {
          assert KeptEntry(c, j) == KeptEntry(acc, j);
        }
      }
    }
  }

  /** Entry `j` of `c` is the full entry of some run. */
  ghost predicate KeptFrom<H>(runs: seq<Result<Entry<H>>>, c: Curves<H>, j: nat)
    requires CurvesLockstep(c) && j < |c.headers|
  {
    exists k :: 0 <= k < |runs| && Full(runs[k])
      && runs[k].value == Entry(Some(c.xBins[j]), Some(c.yBins[j]), Some(c.peaks[j]), c.headers[j])
  }

  /** Lemma: every curve the accumulation keeps is the full entry of one run. */
  lemma {:induction false} KeptCurvesFromRuns<H>(runs: seq<Result<Entry<H>>>)
    requires AccumulateSkipShort(runs).Success?
    ensures var c := AccumulateSkipShort(runs).value;
      forall j :: 0 <= j < |c.headers| ==> KeptFrom(runs, c, j)
  {
    if |runs| > 0 {
      var n := |runs| - 1;
      var init := runs[..n];
      assert forall k :: 0 <= k < n ==> init[k] == runs[k];
      KeptCurvesFromRuns(init);
      var acc := AccumulateSkipShort(init).value;
      var c := AccumulateSkipShort(runs).value;
      forall j | 0 <= j < |c.headers|
        ensures KeptFrom(runs, c, j)
      {
        if j < |acc.headers| {
          assert KeptFrom(init, acc, j);
          var k :| 0 <= k < n && Full(init[k])
            && init[k].value == Entry(Some(acc.xBins[j]), Some(acc.yBins[j]), Some(acc.peaks[j]), acc.headers[j]);
          assert c.xBins[j] == acc.xBins[j] && c.yBins[j] == acc.yBins[j];
          assert c.peaks[j] == acc.peaks[j] && c.headers[j] == acc.headers[j];
          assert runs[k] == init[k];
        } else {
          assert Full(runs[n]);
        }
      }
    }
  }

  /** Lemma: with one bin size, every kept curve lies on the same `np.arange`
      grid and has one value per grid point, so the population mean is taken
      over a rectangular array. */
  lemma KeptCurvesShareGrid<H>(objs: seq<SnObject<H>>, binSize: int)
    requires AccumulateSkipShort(RunAll(objs, binSize)).Success?
    ensures var c := AccumulateSkipShort(RunAll(objs, binSize)).value;
      forall j :: 0 <= j < |c.xBins| ==>
        c.xBins[j] == Binning.ArangeGrid(binSize) && |c.yBins[j]| == |Binning.ArangeGrid(binSize)|
  {
    var runs := RunAll(objs, binSize);
    var c := AccumulateSkipShort(runs).value;
    KeptCurvesFromRuns(runs);
    forall j | 0 <= j < |c.xBins|
      ensures c.xBins[j] == Binning.ArangeGrid(binSize) && |c.yBins[j]| == |Binning.ArangeGrid(binSize)|
    {
      assert KeptFrom(runs, c, j);
      var k :| 0 <= k < |runs| && Full(runs[k])
        && runs[k].value == Entry(Some(c.xBins[j]), Some(c.yBins[j]), Some(c.peaks[j]), c.headers[j]);
      assert runs[k] == RunObject(objs[k], binSize);
    }
  }

  /** Lemma: when no curve is short, skipping short curves changes nothing:
      both accumulations fail alike or hold the same entries. */
  lemma {:induction false} SkipShortAgrees<H>(runs: seq<Result<Entry<H>>>)
    requires forall k :: 0 <= k < |runs| && runs[k].Success? ==> Full(runs[k])
    ensures AccumulateAsWritten(runs).Failure? == AccumulateSkipShort(runs).Failure?
    ensures AccumulateAsWritten(runs).Success? ==>
      var l, c := AccumulateAsWritten(runs).value, AccumulateSkipShort(runs).value;
      && |l.xBins| == |c.xBins|
      && (forall j :: 0 <= j < |c.xBins| ==>
            l.xBins[j] == Some(c.xBins[j]) && l.yBins[j] == Some(c.yBins[j]) && l.peaks[j] == Some(c.peaks[j]))
      && l.headers == c.headers
  {
    if |runs| > 0 {
      var init := runs[..|runs| - 1];
      assert forall k :: 0 <= k < |init| ==> init[k] == runs[k];
      SkipShortAgrees(init);
    }
  }

  // ---------------------------------------------------------------------------
  // Population mean (np.nanmean over axis 0)

  /** All rows have at least `j + 1` points. */
  predicate HasColumn(rows: seq<seq<Num>>, j: nat)
  {
    forall i :: 0 <= i < |rows| ==> j < |rows[i]|
  }

  /** How many rows are not NaN at point `j`. */
  function PresentCount(rows: seq<seq<Num>>, j: nat): (c: nat)
    requires HasColumn(rows, j)
    ensures c <= |rows|
    ensures c == 0 <==> forall i :: 0 <= i < |rows| ==> rows[i][j].None?
  {
    if |rows| == 0 then 0
    else
      var init := rows[..|rows| - 1];
      assert forall i :: 0 <= i < |init| ==> init[i] == rows[i];
      PresentCount(init, j) + (if rows[|rows| - 1][j].Some? then 1 else 0)
  }

  /** The sum of the rows that are not NaN at point `j`. */
  function PresentSum(rows: seq<seq<Num>>, j: nat): real
    requires HasColumn(rows, j)
  {
    if |rows| == 0 then 0.0
    else
      var v := rows[|rows| - 1][j];
      PresentSum(rows[..|rows| - 1], j) + (if v.Some? then v.value else 0.0)
  }

  /** `np.nanmean` at one grid point: NaN when every row is NaN there. */
  function ColumnMean(rows: seq<seq<Num>>, j: nat): (r: Num)
    requires HasColumn(rows, j)
    ensures r.None? <==> forall i :: 0 <= i < |rows| ==> rows[i][j].None?
  {
    var c := PresentCount(rows, j);
    if c == 0 then None else Some(PresentSum(rows, j) / c as real)
  }

  /** `x` added `n` times. */
  function Times(x: real, n: nat): real
  {
    if n == 0 then 0.0 else Times(x, n - 1) + x
  }

  /** Lemma: adding `x` to itself `n` times is multiplying it by `n`. */
  lemma {:induction false} TimesIsProduct(x: real, n: nat)
    ensures Times(x, n) == x * n as real
  {
    if n > 0 {
      TimesIsProduct(x, n - 1);
      assert x * (n - 1) as real + x == x * n as real;
    }
  }

  /** Lemma: the present values at `j` lie in `[lo, hi]`, so their sum lies
      between `count` copies of `lo` and `count` copies of `hi`. */
  lemma {:induction false} SumWithin(rows: seq<seq<Num>>, j: nat, lo: real, hi: real)
    requires HasColumn(rows, j)
    requires forall i :: 0 <= i < |rows| && rows[i][j].Some? ==> lo <= rows[i][j].value <= hi
    ensures Times(lo, PresentCount(rows, j)) <= PresentSum(rows, j) <= Times(hi, PresentCount(rows, j))
  {
    if |rows| > 0 {
      var init := rows[..|rows| - 1];
      assert forall i :: 0 <= i < |init| ==> init[i] == rows[i];
      SumWithin(init, j, lo, hi);
    }
  }

  /** Lemma: `lo * c <= s <= hi * c` with `c > 0` puts `s / c` in `[lo, hi]`. */
  lemma QuotientWithin(s: real, c: real, lo: real, hi: real)
    requires c > 0.0 && lo * c <= s <= hi * c
    ensures lo <= s / c <= hi
  {
    var q := s / c;
    assert q * c == s;
    assert (q - lo) * c == s - lo * c;
    assert (hi - q) * c == hi * c - s;
  }

  /** Lemma: the mean at `j` lies between any bounds of the present values. */
  lemma MeanWithin(rows: seq<seq<Num>>, j: nat, lo: real, hi: real)
    requires HasColumn(rows, j)
    requires forall i :: 0 <= i < |rows| && rows[i][j].Some? ==> lo <= rows[i][j].value <= hi
    ensures ColumnMean(rows, j).Some? ==> lo <= ColumnMean(rows, j).value <= hi
  {
    var n, s := PresentCount(rows, j), PresentSum(rows, j);
    SumWithin(rows, j, lo, hi);
    if n > 0 {
      AverageWithin(s, n, lo, hi);
    }
  }

  /** Lemma: a sum between `n` copies of `lo` and `n` copies of `hi`, divided
      by `n > 0`, lies in `[lo, hi]`. */
  lemma AverageWithin(s: real, n: nat, lo: real, hi: real)
    requires n > 0 && Times(lo, n) <= s <= Times(hi, n)
    ensures lo <= s / n as real <= hi
  {
    TimesIsProduct(lo, n);
    TimesIsProduct(hi, n);
    QuotientWithin(s, n as real, lo, hi);
  }

  /** Lemma: where every present value equals `v`, the mean is `v`. */
  lemma MeanOfEqual(rows: seq<seq<Num>>, j: nat, v: real)
    requires HasColumn(rows, j)
    requires forall i :: 0 <= i < |rows| && rows[i][j].Some? ==> rows[i][j].value == v
    requires exists i :: 0 <= i < |rows| && rows[i][j].Some?
    ensures ColumnMean(rows, j) == Some(v)
  {
    MeanWithin(rows, j, v, v);
  }

  /** Lemma: adding a curve that is NaN at `j` leaves the mean at `j` unchanged. */
  lemma NanRowIgnored(rows: seq<seq<Num>>, row: seq<Num>, j: nat)
    requires HasColumn(rows, j) && j < |row| && row[j].None?
    ensures HasColumn(rows + [row], j)
    ensures ColumnMean(rows + [row], j) == ColumnMean(rows, j)
  {
    assert (rows + [row])[..|rows|] == rows;
  }

  /** `np.nanmean(yBinsArray, axis=0)` over curves of `n` points each. */
  function NanMean(rows: seq<seq<Num>>, n: nat): (m: seq<Num>)
    requires forall i :: 0 <= i < |rows| ==> |rows[i]| == n
    ensures |m| == n
    ensures forall j :: 0 <= j < n ==> HasColumn(rows, j) && m[j] == ColumnMean(rows, j)
  {
    seq(n, j requires 0 <= j < n => ColumnMean(rows, j))
  }

  /** The average curve drawn on `xBinsArray[0]`: `IndexError` when no curve
      was kept, `ValueError` when the curves have different lengths. */
  function PopulationCurve<H>(c: Curves<H>): (r: Result<(seq<real>, seq<Num>)>)
    requires CurvesLockstep(c)
    ensures r.Failure? <==> |c.xBins| == 0 || exists i :: 0 <= i < |c.yBins| && |c.yBins[i]| != |c.yBins[0]|
    ensures r == Failure(IndexError) <==> |c.xBins| == 0
    ensures r.Success? ==> r.value.0 == c.xBins[0] && |r.value.1| == |c.yBins[0]|
    ensures r.Success? ==> forall j :: 0 <= j < |r.value.1| ==>
      (r.value.1[j].None? <==> forall i :: 0 <= i < |c.yBins| ==> c.yBins[i][j].None?)
  {
    if |c.xBins| == 0 then Failure(IndexError)
    else if exists i :: 0 <= i < |c.yBins| && |c.yBins[i]| != |c.yBins[0]| then Failure(ValueError)
    else Success((c.xBins[0], NanMean(c.yBins, |c.yBins[0]|)))
  }

  // ---------------------------------------------------------------------------
  // get_mu

  /** `get_mu`: one `Mu` per header, in header order; `KeyError` at the first
      header that lacks one of the three keys. */
  function GetMu(headers: seq<map<string, real>>): (r: Result<seq<Mu>>)
    ensures r.Failure? ==> r.error == KeyError
    ensures r.Failure? <==> exists k :: 0 <= k < |headers| && !HasMuKeys(headers[k])
    ensures r.Success? ==> |r.value| == |headers|
    ensures r.Success? ==> forall k :: 0 <= k < |headers| ==>
      r.value[k].snoopy == headers[k]["mu_Snoopy"]
      && r.value[k].snoopyErr == headers[k]["err_mu_Snoopy"]
      && r.value[k].lcdm == headers[k]["mu_LCDM"]
  {
    if |headers| == 0 then Success([])
    else
      var h := headers[0];
      if !HasMuKeys(h) then Failure(KeyError)
      else
        match GetMu(headers[1..])
        case Failure(e) => Failure(e)
        case Success(rest) => Success([Mu(h["mu_Snoopy"], h["err_mu_Snoopy"], h["mu_LCDM"])] + rest)
  }

  predicate HasMuKeys(h: map<string, real>)
  {
    "mu_Snoopy" in h && "err_mu_Snoopy" in h && "mu_LCDM" in h
  }
}
