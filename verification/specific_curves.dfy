/** The bookkeeping of scripts/plot_specific_light_curves.py: light-curve
    files are found by supernova name (the first path that contains the name),
    the optical branch orders them by the SALT2 stretch `x1` with a stable
    sort, and each drawn curve gets a drawing depth and a vertical offset. */
module SpecificCurves {
  import opened Common
  import opened Strings

  // ---------------------------------------------------------------------------
  // get_filename_from_snname

  /** The position of the first path that contains `name`, if any. */
  function FirstMatch(name: string, paths: seq<string>): (r: Option<nat>)
    ensures r.Some? ==> r.value < |paths| && Contains(paths[r.value], name)
    ensures r.Some? ==> forall j :: 0 <= j < r.value ==> !Contains(paths[j], name)
    ensures r.None? <==> forall j :: 0 <= j < |paths| ==> !Contains(paths[j], name)
  {
    if |paths| == 0 then None
    else if Contains(paths[0], name) then Some(0)
    else
      match FirstMatch(name, paths[1..])
      case None => None
      case Some(i) => Some(i + 1)
  }

  /** The names that some path contains, in their order. */
  function Found(names: seq<string>, paths: seq<string>): (r: seq<string>)
    ensures |r| <= |names|
  {
    if |names| == 0 then []
    else
      var prev := Found(names[..|names| - 1], paths);
      if FirstMatch(names[|names| - 1], paths).Some? then prev + [names[|names| - 1]] else prev
  }

  /** Lemma: a name is found exactly when some path contains it. */
  lemma {:induction false} FoundMembers(names: seq<string>, paths: seq<string>)
    ensures forall n :: n in Found(names, paths) <==> n in names && FirstMatch(n, paths).Some?
  {
    if |names| > 0 {
      var init := names[..|names| - 1];
      FoundMembers(init, paths);
      assert names == init + [names[|names| - 1]];
    }
  }

  /** The reference result: for each found name, the first path containing
      it. */
  function Lookup(names: seq<string>, paths: seq<string>): (r: seq<string>)
    ensures |r| == |Found(names, paths)|
  {
    if |names| == 0 then []
    else
      var prev := Lookup(names[..|names| - 1], paths);
      match FirstMatch(names[|names| - 1], paths)
      case None => prev
      case Some(i) => prev + [paths[i]]
  }

  /** Lemma: the `k`-th result is the first path containing the `k`-th found
      name. */
  lemma {:induction false} LookupAt(names: seq<string>, paths: seq<string>, k: nat)
    requires k < |Lookup(names, paths)|
    ensures FirstMatch(Found(names, paths)[k], paths).Some?
    ensures Lookup(names, paths)[k] == paths[FirstMatch(Found(names, paths)[k], paths).value]
  {
    var n := |names| - 1;
    var init := names[..n];
    if k < |Lookup(init, paths)| {
      LookupAt(init, paths, k);
    }
  }

  /** Lemma: one more name adds its first matching path, if any. */
  lemma LookupStep(names: seq<string>, paths: seq<string>, a: nat)
    requires a < |names|
    ensures Lookup(names[..a + 1], paths) == Lookup(names[..a], paths) +
      (if FirstMatch(names[a], paths).Some? then [paths[FirstMatch(names[a], paths).value]] else [])
    ensures Found(names[..a + 1], paths) == Found(names[..a], paths) +
      (if FirstMatch(names[a], paths).Some? then [names[a]] else [])
  {
    assert names[..a + 1][..a] == names[..a];
  }

  /** Lemma: a path that contains the name, with none before it, is the
      first match. */
  lemma FirstMatchIs(name: string, paths: seq<string>, b: nat)
    requires b < |paths| && Contains(paths[b], name)
    requires forall j :: 0 <= j < b ==> !Contains(paths[j], name)
    ensures FirstMatch(name, paths) == Some(b)
  {
  }

  /** Lemma: when every name has a file, every name is found. */
  lemma {:induction false} FoundEveryName(names: seq<string>, paths: seq<string>)
    requires forall k :: 0 <= k < |names| ==> FirstMatch(names[k], paths).Some?
    ensures Found(names, paths) == names
  {
    if |names| > 0 {
      var n := |names| - 1;
      var init := names[..n];
      forall k | 0 <= k < |init|
        ensures FirstMatch(init[k], paths).Some?
      {
        assert init[k] == names[k];
      }
      FoundEveryName(init, paths);
      FoundLast(names, paths);
    }
  }

  /** Lemma: when the names before the last are all found and the last one
      has a file, every name is found. */
  lemma FoundLast(names: seq<string>, paths: seq<string>)
    requires |names| > 0 && FirstMatch(names[|names| - 1], paths).Some?
    requires Found(names[..|names| - 1], paths) == names[..|names| - 1]
    ensures Found(names, paths) == names
  {
    assert names[..|names| - 1] + [names[|names| - 1]] == names;
  }

  /** Lemma: when every name has a file, the result follows the name list
      one to one, each path containing its name. */
  lemma LookupAllFound(names: seq<string>, paths: seq<string>)
    requires forall k :: 0 <= k < |names| ==> FirstMatch(names[k], paths).Some?
    ensures |Lookup(names, paths)| == |names|
    ensures forall k :: 0 <= k < |names| ==> Contains(Lookup(names, paths)[k], names[k])
  {
    FoundEveryName(names, paths);
    forall k | 0 <= k < |names|
      ensures Contains(Lookup(names, paths)[k], names[k])
    {
      LookupAt(names, paths, k);
    }
  }

  /** Lemma: a result as long as the name list means every name was found. */
  lemma {:induction false} FoundAll(names: seq<string>, paths: seq<string>)
    requires |Found(names, paths)| == |names|
    ensures forall k :: 0 <= k < |names| ==> FirstMatch(names[k], paths).Some?
  {
    if |names| > 0 {
      var init := names[..|names| - 1];
      assert |Found(init, paths)| <= |init|;
      FoundAll(init, paths);
      assert forall k :: 0 <= k < |init| ==> names[k] == init[k];
    }
  }

  /** `get_filename_from_snname`: the double loop with its `break`. */
  method FilenamesFromNames(names: seq<string>, paths: seq<string>) returns (r: seq<string>)
    ensures r == Lookup(names, paths)
  {
    r := [];
    for a := 0 to |names|
      invariant r == Lookup(names[..a], paths)
    {
      var name := names[a];
      LookupStep(names, paths, a);
      var b, found := 0, false;
      while b < |paths| && !found
        invariant 0 <= b <= |paths|
        invariant !found ==> r == Lookup(names[..a], paths)
        invariant !found ==> forall j :: 0 <= j < b ==> !Contains(paths[j], name)
        invariant found ==> FirstMatch(name, paths) == Some(b - 1)
        invariant found ==> r == Lookup(names[..a], paths) + [paths[b - 1]]
      {
        if Contains(paths[b], name) {
          FirstMatchIs(name, paths, b);
          r := r + [paths[b]];
          found := true;
        }
        b := b + 1;
      }
    }
    assert names[..|names|] == names;
  }

  // ---------------------------------------------------------------------------
  // The common_optical_nir branch: sorted(zip(files, x1), key=x1)

  /** A file path with the `x1` of its supernova. */
  type Keyed = (string, real)

  function Firsts(ps: seq<Keyed>): (r: seq<string>)
    ensures |r| == |ps| && forall k :: 0 <= k < |ps| ==> r[k] == ps[k].0
  {
    seq(|ps|, k requires 0 <= k < |ps| => ps[k].0)
  }

  /** The loop of the optical branch: for each name, the first path that
      contains it, paired with the name's `x1`; `KeyError` when a name that
      has a file has no `x1`. */
  function FoundPairs(names: seq<string>, paths: seq<string>, x1: map<string, real>): (r: Result<seq<Keyed>>)
    ensures r.Failure? ==> r.error == KeyError
    ensures r.Success? <==> forall n :: n in Found(names, paths) ==> n in x1
    ensures r.Success? ==> Firsts(r.value) == Lookup(names, paths)
    ensures r.Success? ==> forall k :: 0 <= k < |r.value| ==>
      Found(names, paths)[k] in x1 && r.value[k].1 == x1[Found(names, paths)[k]]
  {
    if |names| == 0 then Success([])
    else
      var init, last := names[..|names| - 1], names[|names| - 1];
      match FoundPairs(init, paths, x1)
      case Failure(e) =>
        assert Found(init, paths) <= Found(names, paths);
        Failure(e)
      case Success(prev) =>
        match FirstMatch(last, paths)
        case None =>
          assert Found(names, paths) == Found(init, paths);
          assert Lookup(names, paths) == Lookup(init, paths);
          Success(prev)
        case Some(i) =>
          assert Found(names, paths) == Found(init, paths) + [last];
          assert Lookup(names, paths) == Lookup(init, paths) + [paths[i]];
          if last !in x1 then Failure(KeyError)
          else
            var r := prev + [(paths[i], x1[last])];
            assert Firsts(r) == Firsts(prev) + [paths[i]];
            Success(r)
  }

  /** `x1` ascending. */
  predicate SortedByKey(ps: seq<Keyed>)
  {
    forall i, j :: 0 <= i < j < |ps| ==> ps[i].1 <= ps[j].1
  }

  /** The entries whose `x1` is `v`, in order. */
  function WithKey(ps: seq<Keyed>, v: real): (r: seq<Keyed>)
    ensures forall k :: 0 <= k < |r| ==> r[k].1 == v
  {
    if |ps| == 0 then []
    else WithKey(ps[..|ps| - 1], v) + (if ps[|ps| - 1].1 == v then [ps[|ps| - 1]] else [])
  }

  /** Place `p` after every entry of `s` whose key is at most its own. */
  function Insert(p: Keyed, s: seq<Keyed>): (r: seq<Keyed>)
    ensures |r| == |s| + 1
    ensures multiset(r) == multiset(s) + multiset{p}
    ensures forall x :: x in r ==> x in s || x == p
  {
    if |s| == 0 || s[|s| - 1].1 <= p.1 then s + [p]
    else
      var init := s[..|s| - 1];
      assert s == init + [s[|s| - 1]];
      Insert(p, init) + [s[|s| - 1]]
  }

  /** Lemma: inserting into a sorted list keeps it sorted. */
  lemma {:induction false} InsertSorted(p: Keyed, s: seq<Keyed>)
    requires SortedByKey(s)
    ensures SortedByKey(Insert(p, s))
  {
    if |s| > 0 && s[|s| - 1].1 > p.1 {
      var init := s[..|s| - 1];
      InsertSorted(p, init);
      var a := Insert(p, init);
      assert forall x :: x in a ==> x.1 <= s[|s| - 1].1;
    }
  }

  /** `sorted(ps, key=x1)`: Python's sort is stable, which insertion at the
      back of the equal keys reproduces. */
  function SortByX1(ps: seq<Keyed>): (r: seq<Keyed>)
    ensures |r| == |ps|
    ensures multiset(r) == multiset(ps)
    ensures SortedByKey(r)
  {
    if |ps| == 0 then []
    else
      var init := ps[..|ps| - 1];
      assert ps == init + [ps[|ps| - 1]];
      var sorted := SortByX1(init);
      InsertSorted(ps[|ps| - 1], sorted);
      Insert(ps[|ps| - 1], sorted)
  }

  /** Lemma: insertion puts `p` after every entry with the same key. */
  lemma {:induction false} WithKeyInsert(p: Keyed, s: seq<Keyed>, v: real)
    ensures WithKey(Insert(p, s), v) == WithKey(s, v) + (if p.1 == v then [p] else [])
  {
    if |s| == 0 || s[|s| - 1].1 <= p.1 {
      assert (s + [p])[..|s|] == s;
    } else {
      var init := s[..|s| - 1];
      WithKeyInsert(p, init, v);
      assert (Insert(p, init) + [s[|s| - 1]])[..|s|] == Insert(p, init);
    }
  }

  /** Lemma: the sort is stable — the entries sharing any one key keep
      their original relative order. */
  lemma {:induction false} SortStable(ps: seq<Keyed>, v: real)
    ensures WithKey(SortByX1(ps), v) == WithKey(ps, v)
  {
    if |ps| > 0 {
      var init := ps[..|ps| - 1];
      SortStable(init, v);
      WithKeyInsert(ps[|ps| - 1], SortByX1(init), v);
    }
  }

  /** Lemma: the sorted paths are the found paths, rearranged. */
  lemma {:induction false} FirstsInsert(p: Keyed, s: seq<Keyed>)
    ensures multiset(Firsts(Insert(p, s))) == multiset(Firsts(s)) + multiset{p.0}
  {
    if |s| == 0 || s[|s| - 1].1 <= p.1 {
      assert Firsts(s + [p]) == Firsts(s) + [p.0];
    } else {
      var init := s[..|s| - 1];
      FirstsInsert(p, init);
      assert Firsts(Insert(p, init) + [s[|s| - 1]]) == Firsts(Insert(p, init)) + [s[|s| - 1].0];
      assert Firsts(s) == Firsts(init) + [s[|s| - 1].0];
    }
  }

  lemma FirstsSnoc(s: seq<Keyed>, p: Keyed)
    ensures Firsts(s + [p]) == Firsts(s) + [p.0]
  {
  }

  lemma {:induction false} FirstsSort(ps: seq<Keyed>)
    ensures multiset(Firsts(SortByX1(ps))) == multiset(Firsts(ps))
  {
    if |ps| > 0 {
      var init, last := ps[..|ps| - 1], ps[|ps| - 1];
      var sorted := SortByX1(init);
      assert SortByX1(ps) == Insert(last, sorted);
      FirstsSort(init);
      FirstsInsert(last, sorted);
      assert ps == init + [last];
      FirstsSnoc(init, last);
    }
  }

  /** The optical branch up to its length check: `KeyError` from a missing
      `x1`; `IndexError` when no file was found (taking `[0]` of an empty
      `zip`) or when some name has no file. */
  function OrderByX1(names: seq<string>, paths: seq<string>, x1: map<string, real>): (r: Result<seq<string>>)
    ensures r.Failure? ==> r.error == KeyError || r.error == IndexError
    ensures (r.Failure? && r.error == KeyError) <==> FoundPairs(names, paths, x1).Failure?
    ensures FoundPairs(names, paths, x1).Success? ==>
      (r.Failure? <==> |names| == 0 || exists n :: n in names && FirstMatch(n, paths).None?)
    ensures r.Success? ==> |r.value| == |names|
    ensures r.Success? ==> multiset(r.value) == multiset(Lookup(names, paths))
    ensures r.Success? ==> forall k :: 0 <= k < |names| ==> FirstMatch(names[k], paths).Some?
    ensures r.Success? ==> r.value == Firsts(SortByX1(FoundPairs(names, paths, x1).value))
  {
    match FoundPairs(names, paths, x1)
    case Failure(e) => Failure(e)
    case Success(ps) =>
      FirstsSort(ps);
      MissingName(names, paths);
      if |ps| == 0 then Failure(IndexError)
      else
        var files := Firsts(SortByX1(ps));
        if |files| != |names| then Failure(IndexError)
        else
          FoundAll(names, paths);
          Success(files)
  }

  /** Lemma: fewer found names than names exactly when some name has no
      file. */
  lemma MissingName(names: seq<string>, paths: seq<string>)
    ensures |Found(names, paths)| != |names| <==> exists n :: n in names && FirstMatch(n, paths).None?
  {
    if |Found(names, paths)| == |names| {
      FoundAll(names, paths);
    } else if forall n :: n in names ==> FirstMatch(n, paths).Some? {
      LookupAllFound(names, paths);
    }
  }

  // ---------------------------------------------------------------------------
  // The drawing loop

  /** How one curve is drawn: its depth (`zorder`, higher on top) and the
      magnitude offset added to it. */
  datatype Placement = Placement(zorder: int, offset: int)

  /** The bookkeeping of the drawing loop over `n` files: on the shared axes
      each curve lowers the depth by one from 200 and, with `offsetFlag`,
      the next curve is shifted by 3 more; individual plots use depth 0 and
      no offset. */
  method PlotOrder(n: nat, individual: bool, offsetFlag: bool) returns (ps: seq<Placement>)
    ensures |ps| == n
    ensures forall i :: 0 <= i < n ==> ps[i].zorder == (if individual then 0 else 199 - i)
    ensures forall i :: 0 <= i < n ==> ps[i].offset == (if individual || !offsetFlag then 0 else 3 * i)
    ensures !individual ==> forall i, j :: 0 <= i < j < n ==> ps[i].zorder > ps[j].zorder
  {
    var zorder, offset := 200, 0;
    ps := [];
    for i := 0 to n
      invariant |ps| == i
      invariant zorder == (if individual then 200 else 200 - i)
      invariant offset == (if individual || !offsetFlag then 0 else 3 * i)
      invariant forall k :: 0 <= k < i ==> ps[k].zorder == (if individual then 0 else 199 - k)
      invariant forall k :: 0 <= k < i ==> ps[k].offset == (if individual || !offsetFlag then 0 else 3 * k)
    {
      if !individual {
        zorder := zorder - 1;
        ps := ps + [Placement(zorder, offset)];
        if offsetFlag {
          offset := offset + 3;
        }
      } else {
        ps := ps + [Placement(0, 0)];
      }
    }
  }
}
