/** `get_colors_and_markers` of scripts/helpers.py: every colour paired with
    every marker, colour-major, giving each plotted supernova a distinct-looking
    style by position. */
module Helpers {

  const Colors: seq<string> := ["#ff7f0e", "#2ca02c", "#d62728", "#1f77b4", "#9467bd", "#8c564b", "#e377c2",
                                "#7f7f7f", "#bcbd22", "#17becf", "k", "#911eb4", "#800000", "#aa6e28"]

  /** Note that "p" is listed twice. */
  const Markers: seq<string> := ["o", "v", "P", "*", "D", "X", "p", "3", "s", "x", "p"]

  /** One colour with every marker, in marker order. */
  function Pairs(c: string, ms: seq<string>): (r: seq<(string, string)>)
    ensures |r| == |ms| && forall j :: 0 <= j < |ms| ==> r[j] == (c, ms[j])
  {
    seq(|ms|, j requires 0 <= j < |ms| => (c, ms[j]))
  }

  /** The reference product: the colours' blocks one after another. */
  function Product(cs: seq<string>, ms: seq<string>): (r: seq<(string, string)>)
    ensures |r| == |cs| * |ms|
  {
    if |cs| == 0 then []
    else Product(cs[..|cs| - 1], ms) + Pairs(cs[|cs| - 1], ms)
  }

  lemma BlockBefore(i: nat, j: nat, c: nat, m: nat)
    requires i < c && j < m
    ensures i * m + j < c * m
  {
    assert i * m + j < (i + 1) * m;
    assert (i + 1) * m <= c * m;
  }

  /** Lemma: entry `i * |ms| + j` pairs colour `i` with marker `j`. */
  lemma {:induction false} ProductAt(cs: seq<string>, ms: seq<string>, i: nat, j: nat)
    requires i < |cs| && j < |ms|
    ensures i * |ms| + j < |Product(cs, ms)|
    ensures Product(cs, ms)[i * |ms| + j] == (cs[i], ms[j])
  {
    BlockBefore(i, j, |cs|, |ms|);
    var n := |cs| - 1;
    if i < n {
      ProductAt(cs[..n], ms, i, j);
    }
  }

  /** The nested loop of `get_colors_and_markers`, for any two lists. */
  method ColorsAndMarkersOf(colors: seq<string>, markers: seq<string>) returns (cm: seq<(string, string)>)
    ensures cm == Product(colors, markers)
  {
    cm := [];
    for a := 0 to |colors|
      invariant cm == Product(colors[..a], markers)
    {
      assert colors[..a + 1][..a] == colors[..a];
      for b := 0 to |markers|
        invariant cm == Product(colors[..a], markers) + Pairs(colors[a], markers[..b])
      {
        cm := cm + [(colors[a], markers[b])];
        assert Pairs(colors[a], markers[..b + 1]) == Pairs(colors[a], markers[..b]) + [(colors[a], markers[b])];
      }
      assert markers[..|markers|] == markers;
    }
    assert colors[..|colors|] == colors;
  }

  /** `get_colors_and_markers()`: 154 styles, entry `k` being colour `k / 11`
      with marker `k % 11`. */
  method GetColorsAndMarkers() returns (cm: seq<(string, string)>)
    ensures |cm| == |Colors| * |Markers| == 154
    ensures forall k :: 0 <= k < |cm| ==> cm[k] == (Colors[k / 11], Markers[k % 11])
  {
    cm := ColorsAndMarkersOf(Colors, Markers);
    forall k | 0 <= k < |cm|
      ensures cm[k] == (Colors[k / 11], Markers[k % 11])
    {
      ProductAt(Colors, Markers, k / 11, k % 11);
    }
  }

  /** Lemma: each colour fills one contiguous block of 11 entries. */
  lemma ColourBlocks(i: nat, k: nat)
    requires i < |Colors| && 11 * i <= k < 11 * i + 11
    ensures Product(Colors, Markers)[k].0 == Colors[i]
  {
    ProductAt(Colors, Markers, i, k - 11 * i);
  }

  /** Lemma: because "p" is listed twice, every colour's "p" style occurs
      twice, so the styles are not all distinct. */
  lemma RepeatedStyle(i: nat)
    requires i < |Colors|
    ensures Product(Colors, Markers)[11 * i + 6] == Product(Colors, Markers)[11 * i + 10] == (Colors[i], "p")
  {
    ProductAt(Colors, Markers, i, 6);
    ProductAt(Colors, Markers, i, 10);
  }
}
