# Near-infrared light-curve peaks of type Ia supernovae, in Dafny

This project models the computational core of SNIaLightCurveModelling, a set of
Python scripts that study the second near-infrared maximum of type Ia supernova
light curves. The model covers these steps:

- **Resampling.** An irregular list of (phase, absolute magnitude) rows is
  resampled onto a regular phase grid (`bin_light_curve`). Short curves are
  rejected. Repeated phases keep their first magnitude. Values are linearly
  interpolated, and grid points outside the observed span are NaN.
- **Peak extraction.** Peaks are the strict interior local minima of magnitude,
  that is, brightness maxima (`get_peaks`). A peak is removed when it is the
  first peak within 4 days of a trough, a strict local maximum.
- **Population.** Every object's binned curve, peaks and header are gathered in
  lockstep (`plot_binned_light_curves`). The population curve is their
  NaN-ignoring mean. Each peak is sorted into the first-maximum window (-15, 8)
  or the second-maximum window (15, 40) (`plot_mu_vs_peaks`).
- **Headers.** Header lines of the form `v1 v2 # (k1, k2)` are parsed into a
  variable map, and the column names are read from line 11. This covers
  `get_data` in both `fit_light_curve.py` copies and `read_data`.
- **Table glue.** This covers the shared-supernova intersection of the optical
  and NIR tables, derived difference columns, column lookup and paired NaN
  removal. It also covers the first-match filename lookup, the stable sort by
  `x1` and the colour × marker product of plot styles.

Floats are Dafny `real`s. NaN is `None` in `Common.Num = Option<real>`, and
every ordered comparison involving NaN is false, as for unordered operands in
section 5.11 of IEEE 754-2008. A Python exception is a `Failure` carrying its
class (`IndexError`, `ValueError`, `KeyError`, `TypeError`,
`ZeroDivisionError`). Files, plotting and fitting are left out. Their inputs
(the header lines, the data columns and the directory listing) are parameters.

The modules are:

- `common.dfy`: `Option`, `Result`, NaN-aware comparison and arithmetic.
- `binning.dfy`: the grids, the de-duplication, linear interpolation and both
  `bin_light_curve` copies.
- `peaks.dfy`: `argrelextrema`, the trough suppression and both `get_peaks`
  copies.
- `population.dfy`: accumulation, the NaN mean, `get_mu` and the peak windows.
- `strings.dfy`: the Python string methods the header parser uses.
- `header.dfy`: the three copies of the header parser, parameterised by the key
  separator.
- `optical.dfy`: the optical/NIR table operations.
- `specific_curves.dfy`: filename lookup, the sort by `x1` and the drawing
  order.
- `helpers.dfy`: `get_colors_and_markers`.

`get_peaks` appears twice in the repository and the header parser three times.
Each is written once, and its table row names every copy.

## Model

| member | source | states |
|---|---|---|
| Binning.ArangeGrid | scripts/fit_light_curve.py:62 | The grid is `-10 + k*binSize` for exactly the k whose value is below 100. 100 is excluded and the next step would reach it. The grid is strictly ascending, and empty for a negative step. |
| Binning.FixedGrid | fit_light_curve.py:45 | The grid has exactly 121 points, and point k is `-20 + k`. |
| Binning.Linspace | fit_light_curve.py:45 | `np.linspace` has `num` points, starts at `start`, ends at `stop` and has equal steps. |
| Binning.Dedup | scripts/fit_light_curve.py:68-69 | Phases come out strictly increasing. The set of phases is unchanged. Each phase keeps the magnitude of its first occurrence. |
| Binning.DedupKeepsFirstOccurrence | scripts/fit_light_curve.py:68-69 | The k-th unique row carries the magnitude of the first input row with its phase. |
| Binning.DedupIdempotent | scripts/fit_light_curve.py:68-69 | De-duplicating twice equals once. An input that is already strictly increasing is returned unchanged. |
| Binning.DedupShortIffOnePhase | scripts/fit_light_curve.py:68-71 | Fewer than two unique phases remain exactly when all rows share one phase. |
| Binning.Interp | scripts/fit_light_curve.py:71-72 | The interpolant is defined exactly inside `[first phase, last phase]`, and NaN outside. |
| Binning.InterpAtKnot | scripts/fit_light_curve.py:71-72 | At a sample phase, the interpolant equals that sample's magnitude. |
| Binning.InterpBracketed | scripts/fit_light_curve.py:71-72 | Between two adjacent knots, the interpolant is the straight line through them and lies between their magnitudes. |
| Binning.LerpBetween | scripts/fit_light_curve.py:71 | The linear interpolant stays between the two end magnitudes and meets them at the ends. |
| Binning.Resample | scripts/fit_light_curve.py:72 | There is one value per grid point, and it is the interpolant at that point. |
| Binning.ResampleInside | scripts/fit_light_curve.py:71-72 | A grid point between two adjacent knots gets their linear interpolation. |
| Binning.BinLightCurve | scripts/fit_light_curve.py:59-81 | A zero bin size raises `ZeroDivisionError`. 3 or fewer raw rows give `(None, None)`, counted before de-duplication. `ValueError` is raised exactly when every phase is the same. Otherwise the values match the arange grid in length. |
| Binning.BinLightCurveIsResample | scripts/fit_light_curve.py:68-72 | A produced curve is the interpolant of the de-duplicated rows on the arange grid. |
| Binning.BinnedNanOutsideSpan | scripts/fit_light_curve.py:71-72 | A grid value is NaN exactly when the grid point lies below every observed phase or above every one. |
| Binning.BinnedAtObservedPhase | scripts/fit_light_curve.py:68-72 | A grid point equal to an observed phase gets the first magnitude recorded there. |
| Binning.BinOnFixedGrid | fit_light_curve.py:42-48 | There is no length check. Any non-empty increasing input gives 121 values. A value is NaN exactly outside `[first, last]` phase. An empty input raises `ValueError`. |
| Binning.FixedGridAtSample | fit_light_curve.py:46 | A grid point equal to a sample phase gets that sample's magnitude. |
| Peaks.RelExtrema | scripts/fit_light_curve.py:89-93 | The result is exactly the interior indexes strictly below both neighbours for minima, or strictly above both for maxima. It is ascending. Minima and maxima are disjoint. A NaN neighbour disqualifies. The copy at fit_light_curve.py:53-58 does the same. |
| Peaks.FirstNear | scripts/fit_light_curve.py:100-105 | The result is the first peak in order with `peak-4 < trough < peak+4`. It is none exactly when no peak is that near. |
| Peaks.DeleteIndexes | scripts/fit_light_curve.py:95-105 | There is at most one mark per trough. Every mark is the first near peak of some trough, and every such peak is marked. The copy at fit_light_curve.py:59-69 does the same. |
| Peaks.Delete | scripts/fit_light_curve.py:106-107 | `np.delete` keeps the unmarked entries in order. A peak marked twice is removed once. At most as many entries are removed as marks. |
| Peaks.Survivors | scripts/fit_light_curve.py:95-107 | A candidate survives exactly when no trough picked it. Survivors are ascending. At least `#peaks - #troughs` survive. |
| Peaks.Suppress | scripts/fit_light_curve.py:106-107 | Phases and fluxes are deleted at the same positions, so they stay paired. |
| Peaks.IsolatedPeakSurvives | scripts/fit_light_curve.py:98-107 | A peak with no trough strictly within 4 days survives with its flux. |
| Peaks.PeakFluxes | scripts/fit_light_curve.py:89-91 | Each reported flux is the non-NaN value at its extremum index. |
| Peaks.ExtractPeaks | scripts/fit_light_curve.py:89-107 | Phases and fluxes have equal length. At most one candidate is lost per trough. The copy at fit_light_curve.py:53-71 does the same. |
| Peaks.ExtractPeaksAt | scripts/fit_light_curve.py:89-107 | The j-th reported peak is a surviving strict local minimum, at its grid phase, with its value. |
| Peaks.ExtractPeaksAreMinima | scripts/fit_light_curve.py:89-107 | Every reported (phase, flux) is a strict interior minimum of the binned curve. |
| Peaks.ExtractPeaksAscending | scripts/fit_light_curve.py:106-107 | On an ascending grid, surviving peak phases are strictly ascending. |
| Peaks.ExtractPeaksKeepsIsolated | scripts/fit_light_curve.py:96-107 | A local minimum with no local maximum strictly within 4 days is reported. |
| Peaks.GetPeaks | scripts/fit_light_curve.py:83-112 | A short curve gives `(None, None)`. `get_peaks` fails exactly when binning fails. Reported phases are strictly ascending and paired with fluxes. Every reported pair is a strict local minimum of the binned curve, and every minimum with no maximum within 4 days is reported. |
| Peaks.ExtractPeaksOfCurve | scripts/fit_light_curve.py:89-112 | The extracted peaks are strict local minima of the curve, with their values, and include every minimum with no maximum within 4 days. |
| Peaks.PeakInsideGrid | fit_light_curve.py:53-71 | On an ascending grid, a reported peak lies between the second and the next-to-last grid point. |
| Peaks.GetPeaksFixedGrid | fit_light_curve.py:50-76 | The result fails only for an empty curve. Peaks are ascending and paired, and lie strictly inside the grid, in [-19, 99]. They are the strict local minima of the curve on the fixed grid, and include every minimum with no maximum within 4 days. |
| Strings.Tokens | scripts/fit_light_curve.py:36 | `str.split()` tokens are non-empty and free of whitespace. Concatenated, they give the non-whitespace characters of the line. |
| Strings.TokensOfJoin | scripts/fit_light_curve.py:30 | Splitting a single-space join of tokens gives the tokens back. |
| Strings.SplitOn | scripts/fit_light_curve.py:34-35 | `str.split(sep)` parts re-join to the input. The first part ends at the leftmost match. There is one part exactly when `sep` does not occur. The remaining parts are the split of the text after that match. |
| Strings.SplitUnique | scripts/fit_light_curve.py:34-35 | A string has only one such split, so `SplitOn` cuts at every occurrence, left to right, for separators of any length. |
| Strings.RemoveFirst | scripts/fit_light_curve.py:35 | `replace('(', '', 1)` removes exactly the first `'('`, or nothing when there is none. |
| Strings.BeforeLast | scripts/fit_light_curve.py:35 | `rsplit(')', 1)[0]` is the prefix before the last `')'`, or the whole string when there is none. |
| Strings.Strip | scripts/fit_light_curve.py:41 | `strip(chars)` leaves no stripped character at either end and removes only a prefix and a suffix. |
| Strings.ContainsHasMatch | scripts/plot_specific_light_curves.py:16 | `name in path` holds only when the name occurs at some index. |
| Strings.MatchIsContained | scripts/plot_specific_light_curves.py:16 | Any occurrence of the name makes `name in path` hold. |
| Header.BindAll | scripts/fit_light_curve.py:37-38 | After binding, the variables are the old ones plus exactly the keys on the line. |
| Header.BindAllKeeps | scripts/fit_light_curve.py:37-38 | A variable that no key names keeps its old value. |
| Header.BindAllLast | scripts/fit_light_curve.py:37-38 | A repeated key ends with the value of its last binding. |
| Header.Bind | read_data.py:15-17 | More keys than values is an `IndexError`, while extra values are ignored. Otherwise the i-th key gets the i-th value, later bindings winning. |
| Header.ParseLine | scripts/fit_light_curve.py:33-38 | An empty line raises `IndexError`. A `'#'` line changes nothing. A line without exactly one `' # '` raises `ValueError`. A well-formed line raises `IndexError` exactly when its keys outnumber its words. Otherwise it adds exactly its keys, and each key gets the word at the position of its last binding. Keys not on the line are untouched. |
| Header.ParseLines | scripts/fit_light_curve.py:32-38 | Existing keys survive. A key no line binds keeps its value. An all-comment block changes nothing. |
| Header.LastLineDecides | read_data.py:11-17 | The last line that binds a key decides its value, overriding earlier lines and the initial `snName`. The key takes the word at the position of its last binding on that line. |
| Header.ParseHeader | scripts/fit_light_curve.py:30-38 | No lines, or a first line with fewer than two tokens, raises `IndexError`. A successful parse always has `snName`. The copy at fit_light_curve.py:16-24 does the same with key separator `', '`. The copy at read_data.py:9-17 does the same with key separator `','`. |
| Header.ColumnNames | read_data.py:19-20 | Fewer than 12 lines raises `IndexError`. There is one name per `'|'` field, and names have no outer whitespace. A line without `'|'` gives one name. The copy at scripts/fit_light_curve.py:40-41 does the same. |
| Header.ColumnNamesOfJoin | read_data.py:19-20 | Names without `'|'`, `'#'` or outer whitespace, written as `"#" + " | ".join(names)` on line 11, are read back unchanged. |
| Strings.SplitOfJoin | read_data.py:19 | Splitting on a character undoes joining with it when no part contains it. |
| Header.NoBarOneField | read_data.py:19 | A header line without `'|'` yields a single field. |
| Header.GetData | fit_light_curve.py:16-27 | The parse succeeds exactly when the variables parse and line 11 exists. A failure is an `IndexError` or a `ValueError`. A result always has `snName` and one column name per `'|'` field. |
| Header.GetDataColumns | fit_light_curve.py:16-27 | Column names written as `"#" + " | ".join(names)` on line 11 come back as `names` beside the parsed variables. |
| Header.OnlyFirstTenLines | read_data.py:11 | Lines past the tenth never affect the variables. |
| Header.ParseLinesAppend | read_data.py:11-17 | Parsing `a + b` is parsing `b` starting from the result of `a`. |
| Header.CommentLineIgnored | read_data.py:12 | Inserting a `'#'` line anywhere changes nothing. |
| Header.SnNameKept | read_data.py:9-10 | Unless a header line rebinds it, `snName` is the second token of line 0. |
| Header.SeparatorsDiffer | read_data.py:14 | With `','`, later keys keep a leading space (`" b"`). With `', '`, they do not. |
| Population.Zip | scripts/population_statistics.py:65 | `zip` stops at the shorter input and pairs entries by position. |
| Population.AnyNonZero | scripts/population_statistics.py:66 | `.any()` holds exactly when some phase is non-zero. |
| Population.WindowPoints | scripts/population_statistics.py:67-74 | A point is plotted exactly for a peak strictly inside the window, carrying that peak's phase and flux and the object's `mu_Snoopy`. There is one point per in-window peak. |
| Population.WindowPointsAt | scripts/population_statistics.py:67-74 | The k-th point of a window is drawn from the k-th peak whose phase lies in the window, in peak order. |
| Population.Panel | scripts/population_statistics.py:65-74 | A point is in a panel exactly when some admitted object contributes it. A panel has one point per in-window peak of the admitted objects. |
| Population.PanelStep | scripts/population_statistics.py:65-74 | Objects are drawn in list order: each object's window points follow those of the objects before it. |
| Population.PlotMuVsPeaks | scripts/population_statistics.py:62-74 | The loop builds both panels. `count` goes up by one for each peak of an admitted object strictly inside (15, 40). No point is in both windows. |
| Population.SplitWindows | scripts/population_statistics.py:67-74 | The inner loop over one object's peaks builds that object's points for each window. |
| Population.PanelsDisjoint | scripts/population_statistics.py:68-74 | The windows (15, 40) and (-15, 8) do not overlap, so no point is on both panels. |
| Population.GatesAgree | scripts/population_statistics.py:66 | When no object has a peak at phase exactly 0, the `.any()` gate and the has-peaks gate produce the same panels. |
| Population.PeakAtZeroDropped | scripts/population_statistics.py:66 | An object whose one peak sits at phase 0 is dropped by `.any()` but kept by the corrected gate. |
| Population.RunObject | scripts/population_statistics.py:27-34 | The `try` body fails exactly when binning fails. A short curve gives three `None`s together. A full curve is on the arange grid. The peaks are `get_peaks`'s. |
| Population.RunObjectNeverTypeError | scripts/population_statistics.py:27-36 | No modelled step raises `TypeError`, so the `except` never fires. |
| Population.AccumulateAsWritten | scripts/population_statistics.py:23-36 | The four lists grow in lockstep. Each entry comes from one object's run. `TypeError` skips, and any other error propagates. |
| Population.AppendsEverySuccess | scripts/population_statistics.py:27-33 | As written, the appended entries are exactly the entries of the runs that raised nothing, every one of them, in run order. |
| Population.NothingSkipped | scripts/population_statistics.py:27-36 | As written, every object is appended. |
| Population.ShortCurveAppended | scripts/population_statistics.py:28-34 | As written, a one-row curve is appended as `None` entries. |
| Population.AccumulateSkipShort | scripts/population_statistics.py:27-36 | With the correction, the lists stay in lockstep. The accumulation fails exactly when some object raises an error other than `TypeError`. |
| Population.KeepsEveryFullRun | scripts/population_statistics.py:27-36 | With the correction, the kept entries are exactly the full runs, every one of them, in run order. |
| Population.KeptCurvesFromRuns | scripts/population_statistics.py:27-36 | Each kept entry is the full curve, peaks and header of one object's run. |
| Population.KeptCurvesShareGrid | scripts/population_statistics.py:31-32 | Every kept curve lies on the same arange grid, so the curves stack into a rectangular array. |
| Population.SkipShortAgrees | scripts/population_statistics.py:27-36 | When no curve is short, the as-written and corrected accumulations agree entry by entry. |
| Population.PresentCount | scripts/population_statistics.py:39 | The count of non-NaN values in a column is 0 exactly when all are NaN. |
| Population.ColumnMean | scripts/population_statistics.py:39 | The column mean is NaN exactly when every value in the column is NaN. |
| Population.MeanWithin | scripts/population_statistics.py:39 | The NaN-ignoring mean lies within the bounds of the present values. |
| Population.MeanOfEqual | scripts/population_statistics.py:39 | When all present values are v, the mean is v. |
| Population.NanRowIgnored | scripts/population_statistics.py:39 | Adding a row that is NaN at a point leaves the mean there unchanged. |
| Population.NanMean | scripts/population_statistics.py:39 | `np.nanmean(axis=0)` gives one column mean per grid point. |
| Population.PopulationCurve | scripts/population_statistics.py:38-39 | No curves raises `IndexError`. Ragged rows raise `ValueError`. Otherwise the result is the first grid, and it is NaN exactly where all curves are NaN. |
| Population.GetMu | scripts/population_statistics.py:52-60 | There is one triple per header, in header order, read from that header's three keys. A missing key raises `KeyError`. |
| Common.TrueIndexes | scripts/optical_parameters.py:105 | The positions listed are ascending, in range and true in the mask. |
| Common.TrueIndexesComplete | scripts/optical_parameters.py:105 | Every true position of the mask is listed. |
| Optical.Mask | scripts/optical_parameters.py:105 | Boolean indexing keeps one element per true mask position. |
| Optical.MaskSelected | scripts/optical_parameters.py:105 | Each kept element is the element at a true position of the mask. |
| Optical.MaskAt | scripts/optical_parameters.py:105 | The k-th kept element is the one at the k-th true position. |
| Optical.MaskTwice | scripts/optical_parameters.py:104-109 | Masking by `a`, then by the masked `b`, equals masking once by `a & b`. |
| Optical.Intersection | scripts/optical_parameters.py:40 | A name is kept exactly when both tables have it, in optical order. Distinct names stay distinct. When every optical name is in the NIR table, the optical names are returned. |
| Optical.Loc | scripts/optical_parameters.py:41 | `.loc[names]` has rows in the order of `names`. When the table's labels are distinct, each row is copied from that name's row. |
| Optical.CommonSn | scripts/optical_parameters.py:35-44 | The NIR table holds exactly the shared names, in optical order, with their own rows when the NIR labels are distinct. The optical table is unchanged when it has no extra names, and restricted to the shared names otherwise. |
| Optical.WithDifference | scripts/optical_parameters.py:30-33 | A new column is `a - b` row by row. It is NaN exactly where an operand is NaN, and adding `b` back gives `a`. A missing operand raises `KeyError`. Lines 30 and 33 both derive a column this way. |
| Optical.Prepare | scripts/optical_parameters.py:26-33 | After `common_sn`, both tables share an index. Both derived columns exist, or `KeyError` is raised exactly when one of the four operands is missing. |
| Optical.LookupColumn | scripts/optical_parameters.py:90-101 | The NIR table is tried first, then the optical table. An unknown name raises `ValueError`. |
| Optical.PreparedLookups | scripts/optical_parameters.py:26-33 | After the constructor, `"AbsMagB"` looks up `mB - mu_Snoopy` of the shared optical rows, and `"SecondMaxMag - FirstMaxMag"` the NIR difference of the shared NIR rows. |
| Optical.DropNanPairs | scripts/optical_parameters.py:103-109 | A length mismatch raises `IndexError`. Otherwise the two series stay aligned and neither keeps a NaN. |
| Optical.DropNanPairsKeepsBothPresent | scripts/optical_parameters.py:103-109 | The two-stage filter keeps exactly the positions where both series are present, in original order. |
| Optical.NotNanOfMask | scripts/optical_parameters.py:107 | The second presence mask equals the first mask applied to y's presence. |
| Optical.X1VsSecondMax | scripts/optical_parameters.py:66-72 | Both series keep exactly the rows whose second-max phase is present, so `x1` may keep NaN. A missing column raises `KeyError`. Columns of different lengths raise `IndexError`. |
| Optical.X1VsSecondMaxAligned | scripts/optical_parameters.py:66-72 | Entry k of both series comes from the same row, the k-th whose second-max phase is present. |
| Optical.PlotLabels | scripts/optical_parameters.py:111-117 | A given label is kept, and an empty or missing one falls back to the column name. A label is non-empty exactly when it was given or the name is non-empty. The default save name is `xname`, then `_vs_`, then `yname`. |
| Optical.LabelsStable | scripts/optical_parameters.py:111-117 | For non-empty names, passing the chosen labels back in chooses them again. |
| SpecificCurves.FirstMatch | scripts/plot_specific_light_curves.py:15-18 | The result is the first path, in list order, that contains the name. It is none exactly when no path does. |
| SpecificCurves.Found | scripts/plot_specific_light_curves.py:14-18 | At most one entry is found per name. |
| SpecificCurves.FoundMembers | scripts/plot_specific_light_curves.py:14-18 | A name is found exactly when it is listed and some path contains it. |
| SpecificCurves.FoundEveryName | scripts/plot_specific_light_curves.py:13-19 | When every name has a file, the found names are the name list itself. |
| SpecificCurves.Lookup | scripts/plot_specific_light_curves.py:11-19 | There is one path per found name. |
| SpecificCurves.LookupAt | scripts/plot_specific_light_curves.py:11-19 | The k-th path is the first path containing the k-th found name. |
| SpecificCurves.LookupAllFound | scripts/plot_specific_light_curves.py:13-19 | When every name has a file, the result follows the name list one to one. |
| SpecificCurves.FoundAll | scripts/plot_specific_light_curves.py:11-19 | The result is never longer than the names. Equal length means every name was found. |
| SpecificCurves.FilenamesFromNames | scripts/plot_specific_light_curves.py:11-19 | The double loop with `break` computes the reference lookup. |
| SpecificCurves.FoundPairs | scripts/plot_specific_light_curves.py:38-43 | Each found path is paired with its name's `x1`. A found name without `x1` raises `KeyError`. |
| SpecificCurves.SortByX1 | scripts/plot_specific_light_curves.py:44 | The sort gives a permutation of its input, ascending in `x1`. |
| SpecificCurves.SortStable | scripts/plot_specific_light_curves.py:44 | The sort is stable: entries with equal `x1` keep their original order. |
| SpecificCurves.FirstsSort | scripts/plot_specific_light_curves.py:44-45 | The sorted file list is a rearrangement of the found files. |
| SpecificCurves.OrderByX1 | scripts/plot_specific_light_curves.py:38-47 | A missing `x1` raises `KeyError`. No file, or fewer files than names, raises `IndexError`. Otherwise every name has a file, and the result is the found files sorted by `x1`. |
| SpecificCurves.MissingName | scripts/plot_specific_light_curves.py:46-47 | The length check fails exactly when some name has no file. |
| SpecificCurves.PlotOrder | scripts/plot_specific_light_curves.py:59-83 | Curve i is drawn at zorder `199 - i` with offset `3i`, or 0 without `offsetFlag`. Earlier curves are drawn on top. Individual plots use zorder 0 and offset 0. |
| Helpers.Product | scripts/helpers.py:16-19 | The product has `len(colors) * len(markers)` entries. |
| Helpers.ProductAt | scripts/helpers.py:16-19 | Entry `i*len(markers) + j` is (colour i, marker j): colour-major order. |
| Helpers.ColorsAndMarkersOf | scripts/helpers.py:16-20 | The nested loop builds the reference product. |
| Helpers.GetColorsAndMarkers | scripts/helpers.py:12-20 | There are 154 entries, and entry k is `(colors[k // 11], markers[k % 11])`. |
| Helpers.ColourBlocks | scripts/helpers.py:17-19 | Each colour fills one contiguous block of 11 entries. |
| Helpers.RepeatedStyle | scripts/helpers.py:15 | `'p'` is listed twice, so every colour's `'p'` style occurs at offsets 6 and 10 and the entries are not all distinct. |

## Left out

- File and directory I/O (`open`/`readlines`, `pd.read_csv`, `os.listdir`, `os.path.isfile`, `os.makedirs`): header lines, data columns and directory listings are parameters. The `os.path.isfile` fallback at scripts/plot_specific_light_curves.py:53-54 therefore is not modelled.
- All matplotlib plotting and figure saving, and the `main.py` / `scripts/main.py` orchestration: no computed value depends on them.
- `stats.linregress`, sklearn, the celerite GP, `minimize` and emcee: numerical fitting outside the pipeline's bookkeeping.
- `np.nanstd` (line 40 of scripts/population_statistics.py): it needs a square root over reals.
- Float rounding and string-to-float conversion (`float(...)`, `.astype('float')`): arithmetic is exact over reals, and `get_mu` takes headers whose values are already numbers.
- Cubic and other spline kinds: only the `slinear`/`np.interp` path is modelled. `interpKind='cubic'` at scripts/plot_specific_light_curves.py:64 is not accepted by the shown constructor.
- Non-integer bin sizes: `Binning.ArangeGrid` takes an integer step. A float step would change the number of arange points through rounding.
- NaN in the raw phase or magnitude columns: raw rows are reals. NaN arises only from interpolation outside the observed span.
- Python strings beyond code points: `str.split()` whitespace is the set of code points `isspace` accepts. There is no encoding or normalisation.
- Calls that do not match the shown definitions: `get_binned_light_curves`, `common_optical_nir_sn`, the two-value unpacking of `get_filenames`, and the four-argument call of `x1_vs_second_max_phase`. Each function is modelled as written.
- `Population.PopulationCurve`: `np.nanmean` over zero rows is given as the `IndexError` that the `xBinsArray[0]` on line 42 raises. The warning `np.nanmean` prints for an all-NaN column is not modelled; that column's value is NaN.
- Python's `None.any()` `AttributeError` for `None` peaks in `plot_mu_vs_peaks`: the model's panels take peak lists. The corrected accumulation never produces `None` peaks.
- `colorMarker[i]` beyond 154 entries (an `IndexError` for a 155th object): indexing into the style list is not modelled.
- Binning.BinOnFixedGrid: requires strictly increasing phases, because `np.interp` does not check its `xp` argument and its result on unsorted or repeated phases is not specified.
- Peaks.GetPeaksFixedGrid: requires strictly increasing phases, for the same reason.
- Optical.Loc: rows are only characterised when the table's index has no repeated name. With repeats, pandas `.loc` returns every row of a label, which a one-row-per-name table cannot hold. The model takes the first.
- Optical.CommonSn: the rows of each table are only characterised when that table's index has no repeated name, for the same reason as `Optical.Loc`.
- Optical.Intersection: pandas may sort the result of `Index.intersection`. The model keeps the optical order, which is what `names.equals(opticalNames)` compares against.
- SpecificCurves.OrderByX1: `x1` values are taken as reals. A NaN `x1` makes Python's sort order depend on the sort's internal comparisons, which is not modelled.
- SpecificCurves.PlotOrder: models only the zorder and offset bookkeeping, not the label text or the marker line drawn at the second maximum.

`bin_light_curve` rejects a short curve by counting raw rows, 3 or fewer
(scripts/fit_light_curve.py:64), before repeated phases are merged. A curve of
four rows with only two distinct phases is therefore binned.

## Findings

| source | as written | input that shows it | evidently intended | confidence | as-written member | corrected member |
|---|---|---|---|---|---|---|
| scripts/population_statistics.py:27-36 | A short curve makes `bin_light_curve` and `get_peaks` return `(None, None)` without raising. The `except TypeError` never fires, and `None` entries are appended to all four lists. | One object with a single row, e.g. phase 0, magnitude -18: the lists get `None, None, None` and its header. | Short curves are skipped, so that every kept curve is an array on the common grid. | not executed | Population.ShortCurveAppended | Population.AccumulateSkipShort |
| scripts/population_statistics.py:66 | `peakPhases.any()` is false when every peak phase is exactly 0.0, so the object is skipped. | One object whose only peak is at phase 0 with flux -18: phase 0 lies in the first-maximum window (-15, 8), but nothing is plotted. | Objects are gated on having peaks at all. | not executed | Population.PeakAtZeroDropped | Population.GatesAgree |
