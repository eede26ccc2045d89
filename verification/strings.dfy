/** The Python `str` operations the header parsers rely on, over `string`
    (a sequence of code points): `split()` on whitespace, `split(sep)`,
    `replace(c, '', 1)`, `rsplit(c, 1)[0]` and `strip`. */
module Strings {

  /** Python's whitespace (`str.isspace`): what `split()` and `strip()` with
      no argument treat as blank. */
  predicate IsSpace(c: char)
  {
    || ('\t' <= c <= '\r') || ('\U{1C}' <= c <= ' ') || c == '\U{85}' || c == '\U{A0}'
    || c == '\U{1680}' || ('\U{2000}' <= c <= '\U{200A}') || c == '\U{2028}' || c == '\U{2029}'
    || c == '\U{202F}' || c == '\U{205F}' || c == '\U{3000}'
  }

  predicate NoSpace(s: string)
  {
    forall i :: 0 <= i < |s| ==> !IsSpace(s[i])
  }

  /** The characters of `s` that are not whitespace, in order. */
  function NonSpace(s: string): (r: string)
    ensures NoSpace(r) && |r| <= |s|
  {
    if |s| == 0 then "" else if IsSpace(s[0]) then NonSpace(s[1..]) else [s[0]] + NonSpace(s[1..])
  }

  /** All parts laid end to end. */
  function Concat(parts: seq<string>): string
  {
    if |parts| == 0 then "" else parts[0] + Concat(parts[1..])
  }

  /** `sep.join(parts)`. */
  function Join(parts: seq<string>, sep: string): string
  {
    if |parts| == 0 then ""
    else if |parts| == 1 then parts[0]
    else parts[0] + sep + Join(parts[1..], sep)
  }

  lemma {:induction false} ConcatAppend(a: seq<string>, b: seq<string>)
    ensures Concat(a + b) == Concat(a) + Concat(b)
  {
    if |a| == 0 {
      assert a + b == b;
    } else {
      assert (a + b)[1..] == a[1..] + b;
      ConcatAppend(a[1..], b);
      assert Concat(a + b) == a[0] + Concat(a[1..] + b);
    }
  }

  // ---------------------------------------------------------------------------
  // str.split()

  /** Splitting the rest `s` of a string on whitespace, `cur` being the token
      read so far. */
  function TokensFrom(s: string, cur: string): (ts: seq<string>)
    requires NoSpace(cur)
    ensures forall k :: 0 <= k < |ts| ==> |ts[k]| > 0 && NoSpace(ts[k])
    ensures Concat(ts) == cur + NonSpace(s)
  {
    var done: seq<string> := if |cur| > 0 then [cur] else [];
    assert Concat(done) == cur;
    if |s| == 0 then done
    else if IsSpace(s[0]) then
      var rest := TokensFrom(s[1..], "");
      ConcatAppend(done, rest);
      done + rest
    else
      var r := TokensFrom(s[1..], cur + [s[0]]);
      assert cur + NonSpace(s) == cur + [s[0]] + NonSpace(s[1..]);
      r
  }

  /** `s.split()`: the maximal runs of non-whitespace characters. */
  function Tokens(s: string): (ts: seq<string>)
    ensures forall k :: 0 <= k < |ts| ==> |ts[k]| > 0 && NoSpace(ts[k])
    ensures Concat(ts) == NonSpace(s)
  {
    TokensFrom(s, "")
  }

  lemma {:induction false} TokensFromPlain(a: string, rest: string, cur: string)
    requires NoSpace(cur) && NoSpace(a)
    ensures TokensFrom(a + rest, cur) == TokensFrom(rest, cur + a)
  {
    if |a| > 0 {
      assert (a + rest)[1..] == a[1..] + rest;
      assert cur + [a[0]] + a[1..] == cur + a;
      TokensFromPlain(a[1..], rest, cur + [a[0]]);
    } else {
      assert a + rest == rest && cur + a == cur;
    }
  }

  /** Lemma: `" ".join(ts).split() == ts` when every token is non-empty and
      blank-free; splitting on whitespace undoes joining with a space. */
  lemma {:induction false} TokensOfJoin(ts: seq<string>)
    requires forall k :: 0 <= k < |ts| ==> |ts[k]| > 0 && NoSpace(ts[k])
    ensures Tokens(Join(ts, " ")) == ts
  {
    if |ts| == 1 {
      TokensFromPlain(ts[0], "", "");
      assert ts[0] + "" == ts[0] && "" + ts[0] == ts[0];
    } else if |ts| > 1 {
      var rest := Join(ts[1..], " ");
      assert Join(ts, " ") == ts[0] + (" " + rest);
      TokensFromPlain(ts[0], " " + rest, "");
      assert "" + ts[0] == ts[0];
      assert (" " + rest)[1..] == rest;
      TokensOfJoin(ts[1..]);
      assert ts == [ts[0]] + ts[1..];
    }
  }

  // ---------------------------------------------------------------------------
  // str.split(sep)

  /** `sep` occurs in `s` starting at index `i`. */
  predicate MatchAt(s: string, sep: string, i: int)
  {
    0 <= i && i + |sep| <= |s| && s[i..i + |sep|] == sep
  }

  lemma MatchShift(s: string, sep: string, i: nat)
    requires |s| > 0
    ensures MatchAt(s[1..], sep, i) <==> MatchAt(s, sep, i + 1)
  {
    if i + |sep| <= |s| - 1 {
      assert s[1..][i..i + |sep|] == s[i + 1..i + 1 + |sep|];
    }
  }

  lemma JoinConsFirst(c: char, x: string, rest: seq<string>, sep: string)
    ensures Join([[c] + x] + rest, sep) == [c] + Join([x] + rest, sep)
  {
    var a, b := [[c] + x] + rest, [x] + rest;
    assert a[1..] == rest && b[1..] == rest;
  }

  /** The first cut of `s.split(sep)`: joined back with `sep` the parts give
      `s`; the first part is the prefix of `s` before its leftmost occurrence
      of `sep`; there is a single part exactly when `sep` does not occur. */
  ghost predicate FirstCut(s: string, sep: string, parts: seq<string>)
  {
    && |parts| >= 1
    && Join(parts, sep) == s
    && |parts[0]| <= |s| && parts[0] == s[..|parts[0]|]
    && (forall i :: 0 <= i < |parts[0]| ==> !MatchAt(s, sep, i))
    && (|parts| == 1 <==> forall i :: 0 <= i <= |s| ==> !MatchAt(s, sep, i))
    && (|parts| > 1 ==> MatchAt(s, sep, |parts[0]|))
  }

  /** `parts` is how `s.split(sep)` cuts `s`: the first cut is at the leftmost
      occurrence, and the other parts are how the text after it is cut. */
  ghost predicate IsSplit(s: string, sep: string, parts: seq<string>)
    decreases |parts|
  {
    && FirstCut(s, sep, parts)
    && (|parts| > 1 ==> IsSplit(s[|parts[0]| + |sep|..], sep, parts[1..]))
  }

  lemma SplitShort(s: string, sep: string)
    requires |s| < |sep|
    ensures IsSplit(s, sep, [s])
  {
  }

  lemma SplitAtSep(s: string, sep: string, rest: seq<string>)
    requires |sep| <= |s| && s[..|sep|] == sep && IsSplit(s[|sep|..], sep, rest)
    ensures IsSplit(s, sep, [""] + rest)
  {
    assert ([""] + rest)[1..] == rest;
    assert Join([""] + rest, sep) == "" + sep + Join(rest, sep);
    assert s == s[..|sep|] + s[|sep|..];
    assert MatchAt(s, sep, 0);
  }

  lemma SplitPastChar(s: string, sep: string, rest: seq<string>)
    requires |sep| <= |s| && s[..|sep|] != sep && IsSplit(s[1..], sep, rest)
    ensures IsSplit(s, sep, [[s[0]] + rest[0]] + rest[1..])
  {
    FirstCutPastChar(s, sep, rest);
    var parts := [[s[0]] + rest[0]] + rest[1..];
    if |rest| > 1 {
      assert parts[1..] == rest[1..];
      assert s[1..][|rest[0]| + |sep|..] == s[|parts[0]| + |sep|..];
    }
  }

  lemma FirstCutPastChar(s: string, sep: string, rest: seq<string>)
    requires |sep| <= |s| && s[..|sep|] != sep && FirstCut(s[1..], sep, rest)
    ensures FirstCut(s, sep, [[s[0]] + rest[0]] + rest[1..])
  {
    JoinConsFirst(s[0], rest[0], rest[1..], sep);
    assert [rest[0]] + rest[1..] == rest;
    assert s == [s[0]] + s[1..];
    forall i | 0 <= i <= |s| - 1
      ensures MatchAt(s[1..], sep, i) <==> MatchAt(s, sep, i + 1)
    {
      MatchShift(s, sep, i);
    }
    assert !MatchAt(s, sep, 0);
    forall i | 1 <= i < |rest[0]| + 1
      ensures !MatchAt(s, sep, i)
    {
      assert !MatchAt(s[1..], sep, i - 1);
    }
    assert ([s[0]] + rest[0]) == s[..|rest[0]| + 1];
    if |rest| == 1 {
      forall i | 0 <= i <= |s|
        ensures !MatchAt(s, sep, i)
      {
        if i > 0 {
          assert !MatchAt(s[1..], sep, i - 1);
        }
      }
    }
  }

  /** `s.split(sep)` for a non-empty `sep`: cut at every occurrence, found
      left to right without overlap. */
  function SplitOn(s: string, sep: string): (parts: seq<string>)
    requires |sep| > 0
    ensures IsSplit(s, sep, parts)
    decreases |s|
  {
    if |s| < |sep| then
      SplitShort(s, sep);
      [s]
    else if s[..|sep|] == sep then
      var rest := SplitOn(s[|sep|..], sep);
      SplitAtSep(s, sep, rest);
      [""] + rest
    else
      var rest := SplitOn(s[1..], sep);
      SplitPastChar(s, sep, rest);
      [[s[0]] + rest[0]] + rest[1..]
  }

  /** Lemma: two first cuts of the same string cut at the same place. */
  lemma FirstCutsAgree(s: string, sep: string, p: seq<string>, q: seq<string>)
    requires FirstCut(s, sep, p) && FirstCut(s, sep, q)
    ensures |p| == 1 <==> |q| == 1
    ensures p[0] == q[0]
  {
    if |p| == 1 {
      assert p[0] == Join(p, sep);
    }
    if |q| == 1 {
      assert q[0] == Join(q, sep);
    }
    if |p| > 1 && |q| > 1 {
      assert MatchAt(s, sep, |p[0]|) && MatchAt(s, sep, |q[0]|);
      assert |p[0]| == |q[0]|;
    }
  }

  /** Lemma: a string has only one split, so `SplitOn` is `s.split(sep)`
      cut at every occurrence, left to right. */
  lemma {:induction false} SplitUnique(s: string, sep: string, p: seq<string>, q: seq<string>)
    requires IsSplit(s, sep, p) && IsSplit(s, sep, q)
    ensures p == q
    decreases |p|
  {
    FirstCutsAgree(s, sep, p, q);
    if |p| > 1 {
      SplitUnique(s[|p[0]| + |sep|..], sep, p[1..], q[1..]);
      assert p == [p[0]] + p[1..] && q == [q[0]] + q[1..];
    }
  }

  /** `c` does not occur in `s`. */
  predicate Free(s: string, c: char)
  {
    forall i :: 0 <= i < |s| ==> s[i] != c
  }

  /** Lemma: a string without `c` is cut only at the `c` that follows it. */
  lemma {:induction false} SplitAfterPlain(a: string, c: char, tail: string)
    requires Free(a, c)
    ensures SplitOn(a + [c] + tail, [c]) == [a] + SplitOn(tail, [c])
    decreases |a|
  {
    var s := a + [c] + tail;
    if |a| == 0 {
      assert s[..1] == [c] && s[1..] == tail;
    } else {
      assert s[..1] == [a[0]] && s[1..] == a[1..] + [c] + tail;
      assert s[..1] != [c] by { assert a[0] != c; }
      var rest := SplitOn(s[1..], [c]);
      assert SplitOn(s, [c]) == [[s[0]] + rest[0]] + rest[1..];
      SplitAfterPlain(a[1..], c, tail);
      assert rest[0] == a[1..] && rest[1..] == SplitOn(tail, [c]);
      assert [a[0]] + a[1..] == a;
    }
  }

  /** Lemma: a string without `c` is a single part. */
  lemma SplitPlain(a: string, c: char)
    requires Free(a, c)
    ensures SplitOn(a, [c]) == [a]
  {
    forall i | 0 <= i <= |a|
      ensures !MatchAt(a, [c], i)
    {
      if i + 1 <= |a| {
        assert a[i..i + 1] == [a[i]];
      }
    }
  }

  /** Lemma: `c.join(parts).split(c) == parts` when no part holds `c`. */
  lemma {:induction false} SplitOfJoin(parts: seq<string>, c: char)
    requires |parts| >= 1 && forall k :: 0 <= k < |parts| ==> Free(parts[k], c)
    ensures SplitOn(Join(parts, [c]), [c]) == parts
  {
    if |parts| == 1 {
      SplitPlain(parts[0], c);
    } else {
      SplitOfJoin(parts[1..], c);
      SplitAfterPlain(parts[0], c, Join(parts[1..], [c]));
      assert [parts[0]] + parts[1..] == parts;
    }
  }

  // ---------------------------------------------------------------------------
  // sub in s

  /** Python's `sub in s` on strings. */
  predicate Contains(s: string, sub: string)
    decreases |s|
  {
    MatchAt(s, sub, 0) || (|s| > 0 && Contains(s[1..], sub))
  }

  /** Lemma: `sub in s` finds an occurrence. */
  lemma {:induction false} ContainsHasMatch(s: string, sub: string)
    requires Contains(s, sub)
    ensures exists i :: MatchAt(s, sub, i)
    decreases |s|
  {
    if !MatchAt(s, sub, 0) {
      ContainsHasMatch(s[1..], sub);
      var i :| MatchAt(s[1..], sub, i);
      MatchShift(s, sub, i);
    }
  }

  /** Lemma: every occurrence makes `sub in s` true. */
  lemma {:induction false} MatchIsContained(s: string, sub: string, i: nat)
    requires MatchAt(s, sub, i)
    ensures Contains(s, sub)
    decreases i
  {
    if i > 0 {
      MatchShift(s, sub, i - 1);
      MatchIsContained(s[1..], sub, i - 1);
    }
  }

  // ---------------------------------------------------------------------------
  // replace(c, '', 1) and rsplit(c, 1)[0]

  /** The first index of `c` in `s`. */
  function IndexOf(s: string, c: char): (i: nat)
    requires c in s
    ensures i < |s| && s[i] == c && c !in s[..i]
  {
    if s[0] == c then 0
    else
      assert c in s[1..] by { assert s == [s[0]] + s[1..]; }
      var j := IndexOf(s[1..], c);
      assert s[..j + 1] == [s[0]] + s[1..][..j];
      j + 1
  }

  /** `s.replace(c, '', 1)`: `s` without its first `c`. */
  function RemoveFirst(s: string, c: char): (r: string)
    ensures c !in s ==> r == s
    ensures c in s ==> r == s[..IndexOf(s, c)] + s[IndexOf(s, c) + 1..]
    ensures c in s ==> |r| == |s| - 1
  {
    if |s| == 0 then s
    else if s[0] == c then s[1..]
    else
      var rest := RemoveFirst(s[1..], c);
      RemoveFirstStep(s, c, rest);
      [s[0]] + rest
  }

  /** The step of `RemoveFirst` past a first character other than `c`. */
  lemma RemoveFirstStep(s: string, c: char, rest: string)
    requires |s| > 0 && s[0] != c
    requires c !in s[1..] ==> rest == s[1..]
    requires c in s[1..] ==> rest == s[1..][..IndexOf(s[1..], c)] + s[1..][IndexOf(s[1..], c) + 1..]
    ensures c !in s ==> [s[0]] + rest == s
    ensures c in s ==> [s[0]] + rest == s[..IndexOf(s, c)] + s[IndexOf(s, c) + 1..]
  {
    assert s == [s[0]] + s[1..];
    if c in s {
      assert c in s[1..];
      var j := IndexOf(s[1..], c);
      assert IndexOf(s, c) == j + 1;
      assert s[..j + 1] == [s[0]] + s[1..][..j];
      assert s[j + 2..] == s[1..][j + 1..];
    }
  }

  /** `s.rsplit(c, 1)[0]`: the text before the last `c`, or all of `s` when
      there is none. */
  function BeforeLast(s: string, c: char): (r: string)
    ensures c !in s ==> r == s
    ensures c in s ==> |r| < |s| && r == s[..|r|] && s[|r|] == c && c !in s[|r| + 1..]
  {
    if |s| == 0 then s
    else if s[|s| - 1] == c then s[..|s| - 1]
    else if c in s[..|s| - 1] then
      var r := BeforeLast(s[..|s| - 1], c);
      assert s[..|s| - 1][..|r|] == s[..|r|];
      assert s[|r| + 1..] == s[..|s| - 1][|r| + 1..] + [s[|s| - 1]];
      r
    else
      assert c !in s by { assert s == s[..|s| - 1] + [s[|s| - 1]]; }
      s
  }

  // ---------------------------------------------------------------------------
  // strip

  /** The character classes the parsers strip: `'#'` or whitespace. */
  datatype Trim = Hashes | Blanks

  predicate Strips(t: Trim, c: char)
  {
    match t
    case Hashes => c == '#'
    case Blanks => IsSpace(c)
  }

  /** `r` is `s[i..i + |r|]` and everything of `s` around it is a `t` character. */
  predicate TrimmedAt(s: string, t: Trim, i: int, r: string)
  {
    && 0 <= i <= |s| - |r| && r == s[i..i + |r|]
    && (forall k :: 0 <= k < i ==> Strips(t, s[k]))
    && (forall k :: i + |r| <= k < |s| ==> Strips(t, s[k]))
  }

  /** `r` is what `s.strip(..)` leaves: no `t` character at either end, and
      only `t` characters cut from around it. */
  ghost predicate StripOf(s: string, t: Trim, r: string)
  {
    && (|r| == 0 || (!Strips(t, r[0]) && !Strips(t, r[|r| - 1])))
    && exists i :: TrimmedAt(s, t, i, r)
  }

  lemma TrimFront(s: string, t: Trim, r: string)
    requires |s| > 0 && Strips(t, s[0]) && StripOf(s[1..], t, r)
    ensures StripOf(s, t, r)
  {
    var i :| TrimmedAt(s[1..], t, i, r);
    assert s[1..][i..i + |r|] == s[i + 1..i + 1 + |r|];
    assert TrimmedAt(s, t, i + 1, r);
  }

  lemma TrimBack(s: string, t: Trim, r: string)
    requires |s| > 0 && Strips(t, s[|s| - 1]) && StripOf(s[..|s| - 1], t, r)
    ensures StripOf(s, t, r)
  {
    var i :| TrimmedAt(s[..|s| - 1], t, i, r);
    assert s[..|s| - 1][i..i + |r|] == s[i..i + |r|];
    assert TrimmedAt(s, t, i, r);
  }

  /** Lemma: a string that neither starts nor ends with a `t` character is
      its own strip. */
  lemma StripNothing(s: string, t: Trim)
    requires |s| == 0 || (!Strips(t, s[0]) && !Strips(t, s[|s| - 1]))
    ensures StripOf(s, t, s)
  {
    assert s[0..0 + |s|] == s;
    assert TrimmedAt(s, t, 0, s);
  }

  /** `s.strip(..)`: `s` between its leading and trailing `t` characters. */
  function Strip(s: string, t: Trim): (r: string)
    ensures StripOf(s, t, r)
  {
    if |s| > 0 && Strips(t, s[0]) then
      var r := Strip(s[1..], t);
      TrimFront(s, t, r);
      r
    else if |s| > 0 && Strips(t, s[|s| - 1]) then
      var r := Strip(s[..|s| - 1], t);
      TrimBack(s, t, r);
      r
    else
      StripNothing(s, t);
      s
  }
}
