/** The table glue of scripts/optical_parameters.py: the optical fit table
    and the NIR peak table are cut down to the supernovae they share, derived
    difference columns are added, a named column is looked up in one table or
    the other, and NaN positions are filtered out of a pair of series. */
module Optical {
  import opened Common

  /** A data frame: row labels (supernova names) and named float columns, each
      with one entry per row. */
  datatype Table = Table(index: seq<string>, cols: map<string, seq<Num>>)

  predicate WellFormed(t: Table)
  {
    forall c :: c in t.cols ==> |t.cols[c]| == |t.index|
  }

  predicate Distinct<T(==)>(s: seq<T>)
  {
    forall i, j :: 0 <= i < j < |s| ==> s[i] != s[j]
  }

  /** The position of `x` in `s` (its first, when there are several). */
  function Position<T(==)>(s: seq<T>, x: T): (i: nat)
    requires x in s
    ensures i < |s| && s[i] == x
    ensures forall j :: 0 <= j < i ==> s[j] != x
  {
    if s[0] == x then 0 else 1 + Position(s[1..], x)
  }

  // ---------------------------------------------------------------------------
  // Boolean masks

  /** `xs[m]` with a boolean array `m` of the same length: the elements where
      `m` holds, in order. */
  function Mask<T>(xs: seq<T>, m: seq<bool>): (r: seq<T>)
    requires |xs| == |m|
    ensures |r| == |TrueIndexes(m)|
  {
    if |m| == 0 then []
    else
      var n := |m| - 1;
      var prev := Mask(xs[..n], m[..n]);
      if m[n] then prev + [xs[n]] else prev
  }

  /** Lemma: the `k`-th kept element is the element at the `k`-th position
      where the mask holds. */
  lemma {:induction false} MaskAt<T>(xs: seq<T>, m: seq<bool>, k: nat)
    requires |xs| == |m| && k < |Mask(xs, m)|
    ensures Mask(xs, m)[k] == xs[TrueIndexes(m)[k]]
  {
    var n := |m| - 1;
    if k < |Mask(xs[..n], m[..n])| {
      MaskAt(xs[..n], m[..n], k);
    }
  }

  /** Lemma: every kept element comes from a position where the mask
      holds. */
  lemma MaskSelected<T>(xs: seq<T>, m: seq<bool>)
    requires |xs| == |m|
    ensures forall k :: 0 <= k < |Mask(xs, m)| ==>
      TrueIndexes(m)[k] < |xs| && m[TrueIndexes(m)[k]] && Mask(xs, m)[k] == xs[TrueIndexes(m)[k]]
  {
    forall k | 0 <= k < |Mask(xs, m)|
      ensures Mask(xs, m)[k] == xs[TrueIndexes(m)[k]]
    {
      MaskAt(xs, m, k);
    }
  }

  /** `~np.isnan(xs)`. */
  function NotNan(xs: seq<Num>): (m: seq<bool>)
    ensures |m| == |xs|
    ensures forall i :: 0 <= i < |xs| ==> (m[i] <==> xs[i].Some?)
  {
    seq(|xs|, i requires 0 <= i < |xs| => xs[i].Some?)
  }

  /** Element-wise `a & b`. */
  function Both(a: seq<bool>, b: seq<bool>): (m: seq<bool>)
    requires |a| == |b|
    ensures |m| == |a|
    ensures forall i :: 0 <= i < |a| ==> (m[i] <==> a[i] && b[i])
  {
    seq(|a|, i requires 0 <= i < |a| => a[i] && b[i])
  }

  lemma MaskSnoc<T>(xs: seq<T>, x: T, m: seq<bool>, b: bool)
    requires |xs| == |m|
    ensures Mask(xs + [x], m + [b]) == Mask(xs, m) + (if b then [x] else [])
  {
    assert (xs + [x])[..|xs|] == xs;
    assert (m + [b])[..|m|] == m;
  }

  /** Lemma: masking by `a` and then by `b` restricted to `a` is masking once
      by `a & b`. */
  lemma {:induction false} MaskTwice<T>(xs: seq<T>, a: seq<bool>, b: seq<bool>)
    requires |xs| == |a| == |b|
    ensures |Mask(b, a)| == |Mask(xs, a)|
    ensures Mask(Mask(xs, a), Mask(b, a)) == Mask(xs, Both(a, b))
  {
    if |a| > 0 {
      var n := |a| - 1;
      MaskTwice(xs[..n], a[..n], b[..n]);
      assert Both(a, b)[..n] == Both(a[..n], b[..n]);
      if a[n] {
        MaskSnoc(Mask(xs[..n], a[..n]), xs[n], Mask(b[..n], a[..n]), b[n]);
      }
    }
  }

  // ---------------------------------------------------------------------------
  // common_sn

  /** `opticalNames.intersection(nirNames)`: the optical names that the NIR
      table also has, in optical order. */
  function Intersection(a: seq<string>, b: seq<string>): (r: seq<string>)
    ensures forall n :: n in r <==> n in a && n in b
    ensures Distinct(a) ==> Distinct(r)
    ensures (forall i :: 0 <= i < |a| ==> a[i] in b) ==> r == a
  {
    if |a| == 0 then []
    else
      var rest := Intersection(a[1..], b);
      assert Distinct(a) ==> a[0] !in a[1..];
      if a[0] in b then [a[0]] + rest else rest
  }

  /** Lemma: in a list without repeats, each element sits at its own
      position. */
  lemma PositionOfDistinct<T>(s: seq<T>)
    ensures Distinct(s) ==> forall j :: 0 <= j < |s| ==> Position(s, s[j]) == j
  {
  }

  /** `t.loc[names]`: the rows of `names`, in that order. Each label's row
      is the one row carrying it when the table's labels are distinct. */
  function Loc(t: Table, names: seq<string>): (r: Table)
    requires WellFormed(t) && forall j :: 0 <= j < |names| ==> names[j] in t.index
    ensures WellFormed(r) && r.index == names && r.cols.Keys == t.cols.Keys
    ensures Distinct(t.index) ==> forall c, j :: c in t.cols && 0 <= j < |names| ==>
      r.cols[c][j] == t.cols[c][Position(t.index, names[j])]
  {
    Table(names, map c | c in t.cols :: seq(|names|, j requires 0 <= j < |names| => t.cols[c][Position(t.index, names[j])]))
  }

  /** `common_sn`: both tables restricted to the shared names, in optical
      order; the optical table is replaced only when some optical name is
      missing from the NIR table. */
  function CommonSn(optical: Table, nir: Table): (r: (Table, Table))
    requires WellFormed(optical) && WellFormed(nir)
    ensures r.0.index == r.1.index
    ensures forall n :: n in r.1.index <==> n in optical.index && n in nir.index
    ensures Distinct(optical.index) ==> Distinct(r.1.index)
    ensures WellFormed(r.0) && WellFormed(r.1)
    ensures r.1.cols.Keys == nir.cols.Keys && r.0.cols.Keys == optical.cols.Keys
    ensures forall j :: 0 <= j < |r.1.index| ==> r.1.index[j] in nir.index
    ensures Distinct(nir.index) ==> forall c, j :: c in nir.cols && 0 <= j < |r.1.index| ==>
      r.1.cols[c][j] == nir.cols[c][Position(nir.index, r.1.index[j])]
    ensures Distinct(optical.index) ==> forall c, j :: c in optical.cols && 0 <= j < |r.0.index| ==>
      r.0.index[j] in optical.index && r.0.cols[c][j] == optical.cols[c][Position(optical.index, r.0.index[j])]
    ensures (forall i :: 0 <= i < |optical.index| ==> optical.index[i] in nir.index) ==> r.0 == optical
  {
    var names := Intersection(optical.index, nir.index);
    var nir' := Loc(nir, names);
    if names == optical.index then
      PositionOfDistinct(optical.index);
      (optical, nir')
    else (Loc(optical, names), nir')
  }

  // ---------------------------------------------------------------------------
  // Derived columns (__init__)

  /** `t[name] = t[a] - t[b]`: `KeyError` when either operand column is
      missing; the difference is NaN wherever an operand is. */
  function WithDifference(t: Table, name: string, a: string, b: string): (r: Result<Table>)
    requires WellFormed(t)
    ensures r.Failure? <==> a !in t.cols || b !in t.cols
    ensures r.Failure? ==> r.error == KeyError
    ensures r.Success? ==> WellFormed(r.value) && r.value.index == t.index
    ensures r.Success? ==> r.value.cols.Keys == t.cols.Keys + {name}
    ensures r.Success? ==> forall c :: c in t.cols && c != name ==> r.value.cols[c] == t.cols[c]
    ensures r.Success? ==> forall i :: 0 <= i < |t.index| ==>
      (r.value.cols[name][i].None? <==> t.cols[a][i].None? || t.cols[b][i].None?)
    ensures r.Success? ==> forall i :: 0 <= i < |t.index| && r.value.cols[name][i].Some? ==>
      Add(r.value.cols[name][i], t.cols[b][i]) == t.cols[a][i]
  {
    if a !in t.cols || b !in t.cols then Failure(KeyError)
    else
      var d := seq(|t.index|, i requires 0 <= i < |t.index| => Sub(t.cols[a][i], t.cols[b][i]));
      Success(Table(t.index, t.cols[name := d]))
  }

  /** The constructor after `common_sn`: `AbsMagB = mB - mu_Snoopy` on the
      optical table, then `SecondMaxMag - FirstMaxMag` on the NIR table. */
  function Prepare(optical: Table, nir: Table): (r: Result<(Table, Table)>)
    requires WellFormed(optical) && WellFormed(nir)
    ensures r.Failure? ==> r.error == KeyError
    ensures r.Failure? <==>
      ("mB" !in optical.cols || "mu_Snoopy" !in optical.cols || "secondMaxMag" !in nir.cols || "firstMaxMag" !in nir.cols)
    ensures r.Success? ==> r.value.0.index == r.value.1.index
    ensures r.Success? ==> "AbsMagB" in r.value.0.cols && "SecondMaxMag - FirstMaxMag" in r.value.1.cols
  {
    var (o, n) := CommonSn(optical, nir);
    match WithDifference(o, "AbsMagB", "mB", "mu_Snoopy")
    case Failure(e) => Failure(e)
    case Success(o') =>
      match WithDifference(n, "SecondMaxMag - FirstMaxMag", "secondMaxMag", "firstMaxMag")
      case Failure(e) => Failure(e)
      case Success(n') => Success((o', n'))
  }

  // ---------------------------------------------------------------------------
  // plot_parameters and x1_vs_second_max_phase

  /** The column lookup of `plot_parameters`: the NIR table first, then the
      optical table, else `ValueError`. */
  function LookupColumn(nir: Table, optical: Table, name: string): (r: Result<seq<Num>>)
    ensures r.Failure? <==> name !in nir.cols && name !in optical.cols
    ensures r.Failure? ==> r.error == ValueError
    ensures name in nir.cols ==> r == Success(nir.cols[name])
    ensures name !in nir.cols && name in optical.cols ==> r == Success(optical.cols[name])
  {
    if name in nir.cols then Success(nir.cols[name])
    else if name in optical.cols then Success(optical.cols[name])
    else Failure(ValueError)
  }

  /** Lemma: after the constructor, looking up `"AbsMagB"` yields the
      optical `mB - mu_Snoopy` column and looking up
      `"SecondMaxMag - FirstMaxMag"` the NIR difference column, both over the
      shared supernovae. */
  lemma PreparedLookups(optical: Table, nir: Table)
    requires WellFormed(optical) && WellFormed(nir) && Prepare(optical, nir).Success?
    requires "AbsMagB" !in nir.cols
    ensures var c := CommonSn(optical, nir);
      var x := LookupColumn(Prepare(optical, nir).value.1, Prepare(optical, nir).value.0, "AbsMagB");
      && x.Success? && |x.value| == |c.0.index|
      && forall i :: 0 <= i < |c.0.index| ==> x.value[i] == Sub(c.0.cols["mB"][i], c.0.cols["mu_Snoopy"][i])
    ensures var c := CommonSn(optical, nir);
      var y := LookupColumn(Prepare(optical, nir).value.1, Prepare(optical, nir).value.0, "SecondMaxMag - FirstMaxMag");
      && y.Success? && |y.value| == |c.1.index|
      && forall i :: 0 <= i < |c.1.index| ==>
        y.value[i] == Sub(c.1.cols["secondMaxMag"][i], c.1.cols["firstMaxMag"][i])
  {
    var (o, n) := CommonSn(optical, nir);
    var o' := WithDifference(o, "AbsMagB", "mB", "mu_Snoopy").value;
    var n' := WithDifference(n, "SecondMaxMag - FirstMaxMag", "secondMaxMag", "firstMaxMag").value;
    assert Prepare(optical, nir).value == (o', n');
    assert "AbsMagB" !in n'.cols;
  }

  /** Lemma: masking a series by where it is present leaves no NaN. */
  lemma MaskByNotNan(xs: seq<Num>, m: seq<bool>)
    requires |xs| == |m|
    requires forall i :: 0 <= i < |m| && m[i] ==> xs[i].Some?
    ensures forall k :: 0 <= k < |Mask(xs, m)| ==> Mask(xs, m)[k].Some?
  {
    MaskSelected(xs, m);
  }

  /** Lemma: the presence mask of a masked series is the masked presence
      mask. */
  lemma {:induction false} NotNanOfMask(xs: seq<Num>, m: seq<bool>)
    requires |xs| == |m|
    ensures NotNan(Mask(xs, m)) == Mask(NotNan(xs), m)
  {
    if |m| > 0 {
      var n := |m| - 1;
      NotNanOfMask(xs[..n], m[..n]);
      assert NotNan(xs)[..n] == NotNan(xs[..n]);
      if m[n] {
        assert NotNan(Mask(xs[..n], m[..n]) + [xs[n]]) == NotNan(Mask(xs[..n], m[..n])) + [xs[n].Some?];
      }
    }
  }

  /** The NaN removal of `plot_parameters` as written: mask both series by
      `x`, then both by what is left of `y`; `IndexError` when a mask and a
      series differ in length. */
  function DropNanPairs(x: seq<Num>, y: seq<Num>): (r: Result<(seq<Num>, seq<Num>)>)
    ensures r.Failure? <==> |x| != |y|
    ensures r.Failure? ==> r.error == IndexError
    ensures r.Success? ==> |r.value.0| == |r.value.1|
    ensures r.Success? ==> forall k :: 0 <= k < |r.value.0| ==> r.value.0[k].Some? && r.value.1[k].Some?
  {
    if |x| != |y| then Failure(IndexError)
    else
      var mx := NotNan(x);
      var x1, y1 := Mask(x, mx), Mask(y, mx);
      var my := NotNan(y1);
      MaskByNotNan(x, mx);
      MaskByNotNan(y1, my);
      MaskSelected(x1, my);
      Success((Mask(x1, my), Mask(y1, my)))
  }

  /** Lemma: the two-stage filter keeps exactly the positions where both
      series are present, in their original order. */
  lemma DropNanPairsKeepsBothPresent(x: seq<Num>, y: seq<Num>)
    requires |x| == |y|
    ensures DropNanPairs(x, y) == Success((Mask(x, Both(NotNan(x), NotNan(y))), Mask(y, Both(NotNan(x), NotNan(y)))))
  {
    var mx := NotNan(x);
    NotNanOfMask(y, mx);
    MaskTwice(y, mx, NotNan(y));
    MaskTwice(x, mx, NotNan(y));
  }

  /** The filter of `x1_vs_second_max_phase`: `y` is the NIR `secondMaxPhase`
      column and `x` the optical `x1` column; positions are dropped only where
      `y` is NaN, so `x` may keep NaN entries. */
  function X1VsSecondMax(nir: Table, optical: Table): (r: Result<(seq<Num>, seq<Num>)>)
    ensures r.Failure? ==> r.error == KeyError || r.error == IndexError
    ensures r.Failure? && r.error == KeyError <==> "secondMaxPhase" !in nir.cols || "x1" !in optical.cols
    ensures r.Success? ==> |r.value.0| == |r.value.1|
    ensures r.Success? ==> forall k :: 0 <= k < |r.value.1| ==> r.value.1[k].Some?
    ensures r.Success? ==>
      (|optical.cols["x1"]| == |nir.cols["secondMaxPhase"]|
       && r.value.0 == Mask(optical.cols["x1"], NotNan(nir.cols["secondMaxPhase"]))
       && r.value.1 == Mask(nir.cols["secondMaxPhase"], NotNan(nir.cols["secondMaxPhase"])))
    ensures r.Failure? && r.error == IndexError <==>
      "secondMaxPhase" in nir.cols && "x1" in optical.cols && |optical.cols["x1"]| != |nir.cols["secondMaxPhase"]|
  {
    if "secondMaxPhase" !in nir.cols || "x1" !in optical.cols then Failure(KeyError)
    else
      var y, x := nir.cols["secondMaxPhase"], optical.cols["x1"];
      var m := NotNan(y);
      if |x| != |m| then Failure(IndexError)
      else
        MaskByNotNan(y, m);
        Success((Mask(x, m), Mask(y, m)))
  }

  /** Lemma: the two series stay aligned: entry `k` of both comes from the same
      row, the `k`-th one whose second-maximum phase is present. */
  lemma X1VsSecondMaxAligned(nir: Table, optical: Table, k: nat)
    requires X1VsSecondMax(nir, optical).Success?
    requires k < |X1VsSecondMax(nir, optical).value.0|
    ensures var y := nir.cols["secondMaxPhase"];
      var i := TrueIndexes(NotNan(y))[k];
      && i < |y| && y[i].Some? && i < |optical.cols["x1"]|
      && X1VsSecondMax(nir, optical).value.0[k] == optical.cols["x1"][i]
      && X1VsSecondMax(nir, optical).value.1[k] == y[i]
  {
    var y, x := nir.cols["secondMaxPhase"], optical.cols["x1"];
    MaskAt(x, NotNan(y), k);
    MaskAt(y, NotNan(y), k);
  }

  /** The labels `plot_parameters` ends up with: `None` or an empty string
      falls back to the name, and the save name to `"<x>_vs_<y>"`. */
  datatype Labels = Labels(xlabel: string, ylabel: string, savename: string)

  /** Python truthiness of an optional string. */
  predicate Given(s: Option<string>)
  {
    s.Some? && |s.value| > 0
  }

  function PlotLabels(xname: string, yname: string, xlabel: Option<string>, ylabel: Option<string>,
                      savename: Option<string>): (l: Labels)
    ensures l.xlabel == (if Given(xlabel) then xlabel.value else xname)
    ensures l.ylabel == (if Given(ylabel) then ylabel.value else yname)
    ensures Given(savename) ==> l.savename == savename.value
    ensures |l.xlabel| > 0 <==> Given(xlabel) || |xname| > 0
    ensures |l.ylabel| > 0 <==> Given(ylabel) || |yname| > 0
    ensures |l.savename| > 0
    ensures !Given(savename) ==>
      && |l.savename| == |xname| + 4 + |yname|
      && l.savename[..|xname|] == xname
      && l.savename[|xname|..|xname| + 4] == "_vs_"
      && l.savename[|xname| + 4..] == yname
  {
    Labels(if Given(xlabel) then xlabel.value else xname,
           if Given(ylabel) then ylabel.value else yname,
           if Given(savename) then savename.value else xname + "_vs_" + yname)
  }

  /** Lemma: the labels chosen for non-empty names are stable: passing them
      back in as explicit labels chooses them again. */
  lemma LabelsStable(xname: string, yname: string, xlabel: Option<string>, ylabel: Option<string>,
                     savename: Option<string>)
    requires |xname| > 0 && |yname| > 0
    ensures var l := PlotLabels(xname, yname, xlabel, ylabel, savename);
      PlotLabels(xname, yname, Some(l.xlabel), Some(l.ylabel), Some(l.savename)) == l
  {
  }
}
