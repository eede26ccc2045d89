/** The header of a supernova data file, as read by `get_data` in
    scripts/fit_light_curve.py and fit_light_curve.py and by `read_data` in
    read_data.py. The three copies differ only in the separator between keys,
    so one parser takes it as a parameter.

    Line 0 carries the supernova name as its second word. Each of the first ten
    lines that is not a comment looks like `v1 v2 ... # (k1, k2, ...)` and binds
    the i-th key to the i-th value. Line 11 holds the `|`-separated column
    names. */
module Header {
  import opened Common
  import opened Strings

  /** The header variables: every value stays a string. */
  type Vars = map<string, string>

  /** The key separator of both `get_data` copies. */
  const KeySepGetData: string := ", "

  /** The key separator of `read_data`. */
  const KeySepReadData: string := ","

  /** The separator between the values and the key list of a header line. */
  const ValueKeySep: string := " # "

  /** How many lines the header loop looks at (`lines[:10]`). */
  const HeaderLines: nat := 10

  /** `keysStr.replace('(', '', 1).rsplit(')', 1)[0].split(keySep)`. */
  function Keys(keysStr: string, keySep: string): seq<string>
    requires |keySep| > 0
  {
    SplitOn(BeforeLast(RemoveFirst(keysStr, '('), ')'), keySep)
  }

  /** The keys of a sequence, as a set. */
  function KeySet(keys: seq<string>): set<string>
  {
    set i | 0 <= i < |keys| :: keys[i]
  }

  /** `keys[i]` is not bound again later in `keys`. */
  predicate LastBinding(keys: seq<string>, i: int)
  {
    0 <= i < |keys| && forall j :: i < j < |keys| ==> keys[j] != keys[i]
  }

  /** Binding without the length check: `vars[keys[i]] := values[i]` in order. */
  function BindAll(vars: Vars, keys: seq<string>, values: seq<string>): (r: Vars)
    requires |keys| <= |values|
    ensures r.Keys == vars.Keys + KeySet(keys)
  {
    if |keys| == 0 then vars
    else
      var n := |keys| - 1;
      assert KeySet(keys) == KeySet(keys[..n]) + {keys[n]};
      BindAll(vars, keys[..n], values)[keys[n] := values[n]]
  }

  /** Lemma: binding leaves every variable that no key names unchanged. */
  lemma {:induction false} BindAllKeeps(vars: Vars, keys: seq<string>, values: seq<string>)
    requires |keys| <= |values|
    ensures forall k :: k in vars && k !in KeySet(keys) ==> BindAll(vars, keys, values)[k] == vars[k]
  {
    if |keys| > 0 {
      var n := |keys| - 1;
      assert KeySet(keys) == KeySet(keys[..n]) + {keys[n]};
      BindAllKeeps(vars, keys[..n], values);
    }
  }

  /** Lemma: a key takes the value of its last binding. */
  lemma {:induction false} BindAllLast(vars: Vars, keys: seq<string>, values: seq<string>)
    requires |keys| <= |values|
    ensures forall i :: LastBinding(keys, i) ==> BindAll(vars, keys, values)[keys[i]] == values[i]
  {
    forall i | LastBinding(keys, i)
      ensures BindAll(vars, keys, values)[keys[i]] == values[i]
    {
      BindAllLastAt(vars, keys, values, i);
    }
  }

  /** Lemma: the key at a last binding `i` takes `values[i]`. */
  lemma {:induction false} BindAllLastAt(vars: Vars, keys: seq<string>, values: seq<string>, i: int)
    requires |keys| <= |values| && LastBinding(keys, i)
    ensures keys[i] in BindAll(vars, keys, values) && BindAll(vars, keys, values)[keys[i]] == values[i]
    decreases |keys|
  {
    var n := |keys| - 1;
    var prev := BindAll(vars, keys[..n], values);
    assert BindAll(vars, keys, values) == prev[keys[n] := values[n]];
    if i < n {
      LastBindingInit(keys, i);
      BindAllLastAt(vars, keys[..n], values, i);
    }
  }

  /** Lemma: a last binding before the final key is also last without it. */
  lemma LastBindingInit(keys: seq<string>, i: int)
    requires LastBinding(keys, i) && i < |keys| - 1
    ensures LastBinding(keys[..|keys| - 1], i) && keys[..|keys| - 1][i] == keys[i]
    ensures keys[|keys| - 1] != keys[i]
  {
  }

  /** The inner loop `for i in range(len(keys)): fileVars[keys[i]] = values[i]`:
      `IndexError` once the values run out; otherwise every key is bound, the
      last binding of a key wins, and other variables keep their values. */
  function Bind(vars: Vars, keys: seq<string>, values: seq<string>): (r: Result<Vars>)
    ensures r.Failure? <==> |keys| > |values|
    ensures r.Failure? ==> r.error == IndexError
    ensures r.Success? ==> r.value.Keys == vars.Keys + KeySet(keys)
    ensures r.Success? ==> forall k :: k in vars && k !in KeySet(keys) ==> r.value[k] == vars[k]
    ensures r.Success? ==> forall i :: LastBinding(keys, i) ==> r.value[keys[i]] == values[i]
  {
    if |keys| > |values| then Failure(IndexError)
    else
      BindAllKeeps(vars, keys, values);
      BindAllLast(vars, keys, values);
      Success(BindAll(vars, keys, values))
  }

  /** A comment line: its first character is `'#'`. */
  predicate IsComment(line: string)
  {
    |line| > 0 && line[0] == '#'
  }

  /** The keys a well-formed, non-comment line binds; none for any other line. */
  function LineKeys(line: string, keySep: string): seq<string>
    requires |keySep| > 0
  {
    if |line| == 0 || IsComment(line) then []
    else
      var parts := SplitOn(line, ValueKeySep);
      if |parts| != 2 then [] else Keys(parts[1], keySep)
  }

  /** A line the loop binds from: non-empty, not a comment, and cut by
      `' # '` into exactly a value half and a key half. */
  predicate WellFormedLine(line: string)
  {
    |line| > 0 && !IsComment(line) && |SplitOn(line, ValueKeySep)| == 2
  }

  /** The values of a well-formed line: the words of its first half. */
  function LineValues(line: string): seq<string>
    requires WellFormedLine(line)
  {
    Tokens(SplitOn(line, ValueKeySep)[0])
  }

  /** One pass of the header loop: `line[0]` fails on an empty line, a
      comment is skipped, any other line must split on `' # '` into exactly
      two halves (else `ValueError`), and then its keys are bound. */
  function ParseLine(vars: Vars, line: string, keySep: string): (r: Result<Vars>)
    requires |keySep| > 0
    ensures |line| == 0 ==> r == Failure(IndexError)
    ensures IsComment(line) ==> r == Success(vars)
    ensures !IsComment(line) && |line| > 0 && |SplitOn(line, ValueKeySep)| != 2 ==> r == Failure(ValueError)
    ensures r.Failure? ==> r.error == IndexError || r.error == ValueError
    ensures WellFormedLine(line) ==> (r.Failure? <==> |LineKeys(line, keySep)| > |LineValues(line)|)
    ensures r.Success? ==> r.value.Keys == vars.Keys + KeySet(LineKeys(line, keySep))
    ensures r.Success? ==> forall k :: k in vars && k !in KeySet(LineKeys(line, keySep)) ==> r.value[k] == vars[k]
    ensures r.Success? && WellFormedLine(line) ==> forall i :: LastBinding(LineKeys(line, keySep), i) ==>
      r.value[LineKeys(line, keySep)[i]] == LineValues(line)[i]
  {
    if |line| == 0 then Failure(IndexError)
    else if line[0] == '#' then Success(vars)
    else
      var parts := SplitOn(line, ValueKeySep);
      if |parts| != 2 then Failure(ValueError)
      else Bind(vars, Keys(parts[1], keySep), Tokens(parts[0]))
  }

  /** No line of `lines` binds key `k`. */
  predicate Unbound(lines: seq<string>, keySep: string, k: string)
    requires |keySep| > 0
  {
    forall i :: 0 <= i < |lines| ==> k !in KeySet(LineKeys(lines[i], keySep))
  }

  /** The header loop over the given lines, stopping at the first exception. */
  function ParseLines(vars: Vars, lines: seq<string>, keySep: string): (r: Result<Vars>)
    requires |keySep| > 0
    ensures r.Failure? ==> r.error == IndexError || r.error == ValueError
    ensures r.Success? ==> vars.Keys <= r.value.Keys
    ensures r.Success? ==> forall k :: k in vars && Unbound(lines, keySep, k) ==> r.value[k] == vars[k]
    ensures (forall i :: 0 <= i < |lines| ==> IsComment(lines[i])) ==> r == Success(vars)
    decreases |lines|
  {
    if |lines| == 0 then Success(vars)
    else
      match ParseLine(vars, lines[0], keySep)
      case Failure(e) => Failure(e)
      case Success(v) =>
        var r := ParseLines(v, lines[1..], keySep);
        assert forall k :: Unbound(lines, keySep, k) ==> Unbound(lines[1..], keySep, k) by {
          forall k | Unbound(lines, keySep, k)
            ensures Unbound(lines[1..], keySep, k)
          {
            assert forall i :: 0 <= i < |lines| - 1 ==> lines[1..][i] == lines[i + 1];
          }
        }
        r
  }

  /** Lemma: a key bound in `keys` has a last binding. */
  lemma {:induction false} LastBindingOf(keys: seq<string>, k: string) returns (j: nat)
    requires k in KeySet(keys)
    ensures LastBinding(keys, j) && keys[j] == k
  {
    var n := |keys| - 1;
    if keys[n] == k {
      j := n;
    } else {
      assert k in KeySet(keys[..n]) by {
        var i :| 0 <= i < |keys| && keys[i] == k;
        assert keys[..n][i] == k;
      }
      j := LastBindingOf(keys[..n], k);
      assert keys[..n][j] == keys[j];
      forall l | j < l < |keys|
        ensures keys[l] != keys[j]
      {
        if l < n {
          assert keys[..n][l] == keys[l];
        }
      }
    }
  }

  /** Lemma: a key's last binding on a well-formed line gives its value
      after that line. */
  lemma LineBindingValue(vars: Vars, line: string, keySep: string, j: nat)
    requires |keySep| > 0 && ParseLine(vars, line, keySep).Success? && WellFormedLine(line)
    requires LastBinding(LineKeys(line, keySep), j)
    ensures j < |LineValues(line)|
    ensures LineKeys(line, keySep)[j] in ParseLine(vars, line, keySep).value
    ensures ParseLine(vars, line, keySep).value[LineKeys(line, keySep)[j]] == LineValues(line)[j]
  {
  }

  /** Lemma: a line that binds some key is well formed. */
  lemma BindingLineWellFormed(line: string, keySep: string, k: string)
    requires |keySep| > 0 && k in KeySet(LineKeys(line, keySep))
    ensures WellFormedLine(line)
  {
  }

  /** Lemma: the loop over `a + [line] + b` continues from the variables
      after `line`. */
  lemma ParseThrough(vars: Vars, lines: seq<string>, keySep: string, i: nat)
    requires |keySep| > 0 && ParseLines(vars, lines, keySep).Success? && i < |lines|
    ensures ParseLines(vars, lines[..i], keySep).Success?
    ensures ParseLine(ParseLines(vars, lines[..i], keySep).value, lines[i], keySep).Success?
    ensures ParseLines(vars, lines, keySep) ==
      ParseLines(ParseLine(ParseLines(vars, lines[..i], keySep).value, lines[i], keySep).value, lines[i + 1..], keySep)
  {
    var line := lines[i];
    var a, b := lines[..i], lines[i + 1..];
    assert lines == a + ([line] + b);
    ParseLinesAppend(vars, a, [line] + b, keySep);
    assert ([line] + b)[0] == line && ([line] + b)[1..] == b;
  }

  /** Lemma: the last line that binds a key decides its value, overriding
      any earlier line and the initial variables (`snName` included): the key
      takes the value of its last binding on that line. */
  lemma LastLineDecides(vars: Vars, lines: seq<string>, keySep: string, i: nat, k: string) returns (j: nat)
    requires |keySep| > 0 && ParseLines(vars, lines, keySep).Success?
    requires i < |lines| && k in KeySet(LineKeys(lines[i], keySep)) && Unbound(lines[i + 1..], keySep, k)
    ensures WellFormedLine(lines[i])
    ensures LastBinding(LineKeys(lines[i], keySep), j) && LineKeys(lines[i], keySep)[j] == k
    ensures j < |LineValues(lines[i])|
    ensures k in ParseLines(vars, lines, keySep).value
    ensures ParseLines(vars, lines, keySep).value[k] == LineValues(lines[i])[j]
  {
    BindingLineWellFormed(lines[i], keySep, k);
    ParseThrough(vars, lines, keySep, i);
    var v := ParseLines(vars, lines[..i], keySep).value;
    var w := ParseLine(v, lines[i], keySep).value;
    j := LastBindingOf(LineKeys(lines[i], keySep), k);
    LineBindingValue(v, lines[i], keySep, j);
    assert k in w && w[k] == LineValues(lines[i])[j];
  }

  /** The variables of a header: `snName` from the second word of line 0,
      then the loop over the first ten lines. */
  function ParseHeader(lines: seq<string>, keySep: string): (r: Result<Vars>)
    requires |keySep| > 0
    ensures |lines| == 0 ==> r == Failure(IndexError)
    ensures |lines| > 0 && |Tokens(lines[0])| < 2 ==> r == Failure(IndexError)
    ensures r.Failure? ==> r.error == IndexError || r.error == ValueError
    ensures r.Success? ==> "snName" in r.value
  {
    if |lines| == 0 then Failure(IndexError)
    else
      var words := Tokens(lines[0]);
      if |words| < 2 then Failure(IndexError)
      else
        var first := if |lines| <= HeaderLines then lines else lines[..HeaderLines];
        ParseLines(map["snName" := words[1]], first, keySep)
  }

  /** The column names: line 11 cut at `'|'`, each field stripped of `'#'`
      characters and then of whitespace; `IndexError` when there is no line 11. */
  function ColumnNames(lines: seq<string>): (r: Result<seq<string>>)
    ensures r.Failure? <==> |lines| < 12
    ensures r.Failure? ==> r.error == IndexError
    ensures r.Success? ==> |r.value| >= 1 && |r.value| == |SplitOn(lines[11], "|")|
    ensures r.Success? ==> forall k :: 0 <= k < |r.value| ==> Trimmed(r.value[k])
    ensures r.Success? && Free(lines[11], '|') ==> |r.value| == 1
  {
    if |lines| < 12 then Failure(IndexError)
    else
      var fields := SplitOn(lines[11], "|");
      NoBarOneField(lines[11]);
      Success(seq(|fields|, k requires 0 <= k < |fields| => FieldName(fields[k])))
  }

  /** No whitespace at either end. */
  predicate Trimmed(n: string)
  {
    |n| == 0 || (!IsSpace(n[0]) && !IsSpace(n[|n| - 1]))
  }

  /** One `'|'`-field stripped of `'#'` characters and then of whitespace. */
  function FieldName(field: string): (n: string)
    ensures Trimmed(n)
  {
    var n := Strip(Strip(field, Hashes), Blanks);
    assert |n| == 0 || (!Strips(Blanks, n[0]) && !Strips(Blanks, n[|n| - 1]));
    n
  }

  /** Lemma: a line without `'|'` is a single field. */
  lemma NoBarOneField(s: string)
    ensures Free(s, '|') ==> |SplitOn(s, "|")| == 1
  {
    if Free(s, '|') {
      forall i | 0 <= i <= |s|
        ensures !MatchAt(s, "|", i)
      {
        if i + 1 <= |s| {
          assert s[i..i + 1] == [s[i]];
        }
      }
    }
  }

  /** `get_data` without the table read: the header variables, then the
      column names. */
  function GetData(lines: seq<string>, keySep: string): (r: Result<(Vars, seq<string>)>)
    requires |keySep| > 0
    ensures r.Success? <==> ParseHeader(lines, keySep).Success? && |lines| >= 12
    ensures r.Failure? ==> r.error == IndexError || r.error == ValueError
    ensures r.Success? ==> "snName" in r.value.0
    ensures r.Success? ==> |r.value.1| == |SplitOn(lines[11], "|")|
    ensures r.Success? ==> r.value.0 == ParseHeader(lines, keySep).value
  {
    match ParseHeader(lines, keySep)
    case Failure(e) => Failure(e)
    case Success(vars) =>
      match ColumnNames(lines)
      case Failure(e) => Failure(e)
      case Success(names) => Success((vars, names))
  }

  /** A column name as line 11 can carry it: no `'|'`, no `'#'`, and no
      whitespace at either end. */
  predicate PlainName(n: string)
  {
    Free(n, '|') && Free(n, '#') && Trimmed(n)
  }

  /** The `'|'`-fields of `lead + " | ".join(names)`. */
  function PadFields(names: seq<string>, lead: string): (fs: seq<string>)
    requires |names| >= 1
    ensures |fs| == |names|
  {
    if |names| == 1 then [lead + names[0]]
    else [lead + names[0] + " "] + PadFields(names[1..], " ")
  }

  lemma {:induction false} PadFieldsAt(names: seq<string>, lead: string, k: nat)
    requires k < |names|
    ensures PadFields(names, lead)[k] ==
      (if k == 0 then lead else " ") + names[k] + (if k < |names| - 1 then " " else "")
  {
    if k > 0 {
      PadFieldsAt(names[1..], " ", k - 1);
    }
  }

  lemma {:induction false} PadJoin(names: seq<string>, lead: string)
    requires |names| >= 1
    ensures lead + Join(names, " | ") == Join(PadFields(names, lead), "|")
  {
    if |names| > 1 {
      PadJoin(names[1..], " ");
      var fs := PadFields(names, lead);
      assert fs[1..] == PadFields(names[1..], " ");
      assert lead + Join(names, " | ") == (lead + names[0] + " ") + "|" + (" " + Join(names[1..], " | "));
    }
  }

  /** Lemma: a trimmed name has no blanks to strip. */
  lemma StripTrimmed(n: string)
    requires Trimmed(n)
    ensures Strip(n, Blanks) == n
  {
    if |n| > 0 {
      assert !Strips(Blanks, n[0]) && !Strips(Blanks, n[|n| - 1]);
    }
  }

  /** Lemma: stripping blanks from a trimmed name followed by one blank
      gives the name. */
  lemma StripTrailingBlank(n: string)
    requires Trimmed(n)
    ensures Strip(n + " ", Blanks) == n
  {
    var f := n + " ";
    if |n| == 0 {
      assert f == " " && f[1..] == "";
    } else {
      assert !Strips(Blanks, f[0]) && Strips(Blanks, f[|f| - 1]);
      assert f[..|f| - 1] == n;
      StripTrimmed(n);
    }
  }

  /** Lemma: stripping blanks from a name followed by at most one blank gives
      the name. */
  lemma StripBlankAfter(n: string, post: string)
    requires Trimmed(n) && (post == "" || post == " ")
    ensures Strip(n + post, Blanks) == n
  {
    if post == " " {
      StripTrailingBlank(n);
    } else {
      assert n + post == n;
      StripTrimmed(n);
    }
  }

  /** Lemma: a leading `'#'` is the only `'#'` stripped from a padded name. */
  lemma StripHashLead(n: string, post: string)
    requires PlainName(n) && (post == "" || post == " ")
    ensures Strip("#" + n + post, Hashes) == n + post
  {
    var f, h := "#" + n + post, n + post;
    assert f[0] == '#' && f[1..] == h;
    if |h| > 0 {
      assert h[0] != '#' && h[|h| - 1] != '#';
    }
  }

  /** Lemma: a field padded with blanks has no `'#'` to strip. */
  lemma StripHashNone(n: string, post: string)
    requires PlainName(n) && (post == "" || post == " ")
    ensures Strip(" " + n + post, Hashes) == " " + n + post
  {
    var f := " " + n + post;
    assert f[0] == ' ' && f[|f| - 1] != '#';
  }

  /** Lemma: a leading blank is stripped. */
  lemma StripBlankLead(n: string, post: string)
    requires PlainName(n) && (post == "" || post == " ")
    ensures Strip(" " + n + post, Blanks) == n
  {
    var f := " " + n + post;
    assert IsSpace(f[0]) && f[1..] == n + post;
    StripBlankAfter(n, post);
  }

  /** Lemma: a padded field strips back to its name. */
  lemma StripPadded(pre: string, n: string, post: string)
    requires PlainName(n) && (pre == "#" || pre == " ") && (post == "" || post == " ")
    ensures Strip(Strip(pre + n + post, Hashes), Blanks) == n
  {
    if pre == "#" {
      StripHashLead(n, post);
      StripBlankAfter(n, post);
    } else {
      StripHashNone(n, post);
      StripBlankLead(n, post);
    }
  }

  /** Lemma: a padded plain name holds no `'|'`. */
  lemma PaddedFree(pre: string, n: string, post: string)
    requires PlainName(n) && (pre == "#" || pre == " ") && (post == "" || post == " ")
    ensures Free(pre + n + post, '|')
  {
    var f := pre + n + post;
    forall i | 0 <= i < |f|
      ensures f[i] != '|'
    {
      if i == 0 {
        assert f[i] == pre[0];
      } else if i <= |n| {
        assert f[i] == n[i - 1];
      } else {
        assert f[i] == post[i - 1 - |n|];
      }
    }
  }

  /** Lemma: each padded field is free of `'|'` and names its column. */
  lemma PaddedFieldsName(names: seq<string>)
    requires |names| >= 1 && forall k :: 0 <= k < |names| ==> PlainName(names[k])
    ensures forall k :: 0 <= k < |names| ==>
      Free(PadFields(names, "#")[k], '|') && FieldName(PadFields(names, "#")[k]) == names[k]
  {
    var fs := PadFields(names, "#");
    forall k | 0 <= k < |fs|
      ensures Free(fs[k], '|') && FieldName(fs[k]) == names[k]
    {
      var pre, post := if k == 0 then "#" else " ", if k < |names| - 1 then " " else "";
      PadFieldsAt(names, "#", k);
      assert fs[k] == pre + names[k] + post;
      PaddedFree(pre, names[k], post);
      StripPadded(pre, names[k], post);
    }
  }

  /** Lemma: `"#" + " | ".join(names)` splits on `'|'` into the padded fields. */
  lemma FieldsOfLine(names: seq<string>)
    requires |names| >= 1 && forall k :: 0 <= k < |names| ==> PlainName(names[k])
    ensures SplitOn("#" + Join(names, " | "), "|") == PadFields(names, "#")
  {
    PadJoin(names, "#");
    PaddedFieldsName(names);
    SplitOfJoin(PadFields(names, "#"), '|');
  }

  /** Lemma: column names written as `"#" + " | ".join(names)` on line 11
      are read back unchanged. */
  lemma ColumnNamesOfJoin(lines: seq<string>, names: seq<string>)
    requires |lines| >= 12 && |names| >= 1 && lines[11] == "#" + Join(names, " | ")
    requires forall k :: 0 <= k < |names| ==> PlainName(names[k])
    ensures ColumnNames(lines) == Success(names)
  {
    PaddedFieldsName(names);
    FieldsOfLine(names);
    NamesOfFields(lines, PadFields(names, "#"), names);
  }

  /** Lemma: when line 11's fields name `names` one by one, those are the
      column names. */
  lemma NamesOfFields(lines: seq<string>, fs: seq<string>, names: seq<string>)
    requires |lines| >= 12 && SplitOn(lines[11], "|") == fs && |fs| == |names|
    requires forall k :: 0 <= k < |fs| ==> FieldName(fs[k]) == names[k]
    ensures ColumnNames(lines) == Success(names)
  {
    var r := ColumnNames(lines).value;
    assert forall k :: 0 <= k < |r| ==> r[k] == FieldName(fs[k]);
    assert r == names;
  }

  /** Lemma: `get_data` reads back the column names written on line 11. */
  lemma GetDataColumns(lines: seq<string>, keySep: string, names: seq<string>)
    requires |keySep| > 0 && ParseHeader(lines, keySep).Success?
    requires |lines| >= 12 && |names| >= 1 && lines[11] == "#" + Join(names, " | ")
    requires forall k :: 0 <= k < |names| ==> PlainName(names[k])
    ensures GetData(lines, keySep) == Success((ParseHeader(lines, keySep).value, names))
  {
    ColumnNamesOfJoin(lines, names);
  }

  // ---------------------------------------------------------------------------
  // Properties

  /** Lemma: only the first ten lines matter to the header variables. */
  lemma OnlyFirstTenLines(lines: seq<string>, more: seq<string>, keySep: string)
    requires |keySep| > 0 && |lines| >= HeaderLines
    ensures ParseHeader(lines + more, keySep) == ParseHeader(lines, keySep)
  {
    if |more| == 0 {
      assert lines + more == lines;
    }
    assert (lines + more)[0] == lines[0];
    var first := if |lines| <= HeaderLines then lines else lines[..HeaderLines];
    assert first == lines[..HeaderLines];
    assert (lines + more)[..HeaderLines] == lines[..HeaderLines];
  }

  /** Lemma: the loop over `a + b` is the loop over `a` followed by the loop
      over `b`. */
  lemma {:induction false} ParseLinesAppend(vars: Vars, a: seq<string>, b: seq<string>, keySep: string)
    requires |keySep| > 0
    ensures ParseLines(vars, a + b, keySep) ==
      match ParseLines(vars, a, keySep)
      case Failure(e) => Failure(e)
      case Success(v) => ParseLines(v, b, keySep)
    decreases |a|
  {
    if |a| == 0 {
      assert a + b == b;
    } else {
      assert (a + b)[0] == a[0] && (a + b)[1..] == a[1..] + b;
      match ParseLine(vars, a[0], keySep)
      case Failure(e) =>
      case Success(v) => ParseLinesAppend(v, a[1..], b, keySep);
    }
  }

  /** Lemma: a comment line anywhere in the loop changes nothing; removing it
      gives the same result. */
  lemma CommentLineIgnored(vars: Vars, a: seq<string>, c: string, b: seq<string>, keySep: string)
    requires |keySep| > 0 && IsComment(c)
    ensures ParseLines(vars, a + [c] + b, keySep) == ParseLines(vars, a + b, keySep)
  {
    ParseLinesAppend(vars, a, [c] + b, keySep);
    ParseLinesAppend(vars, a, b, keySep);
    assert a + [c] + b == a + ([c] + b);
    match ParseLines(vars, a, keySep)
    case Failure(e) =>
    case Success(v) =>
      assert ([c] + b)[0] == c && ([c] + b)[1..] == b;
  }

  /** Lemma: `snName` keeps the second word of line 0 unless one of the
      first ten lines binds the key `snName` itself. */
  lemma SnNameKept(lines: seq<string>, keySep: string)
    requires |keySep| > 0 && ParseHeader(lines, keySep).Success?
    requires Unbound(if |lines| <= HeaderLines then lines else lines[..HeaderLines], keySep, "snName")
    ensures ParseHeader(lines, keySep).value["snName"] == Tokens(lines[0])[1]
  {
  }

  lemma ExampleKeyText()
    ensures BeforeLast(RemoveFirst("(a, b)", '('), ')') == "a, b"
  {
    assert RemoveFirst("(a, b)", '(') == "a, b)";
    assert BeforeLast("a, b)", ')') == "a, b";
  }

  lemma SplitCommaSpace()
    ensures SplitOn("a, b", ", ") == ["a", "b"]
  {
    var s := "a, b";
    assert s[1..] == ", b" && s[0] == 'a' && s[..2] != ", ";
    assert ", b"[..2] == ", " && ", b"[2..] == "b";
    assert SplitOn("b", ", ") == ["b"];
    assert SplitOn(", b", ", ") == ["", "b"];
    assert SplitOn(s[1..], ", ") == ["", "b"];
    assert [s[0]] + "" == "a";
  }

  lemma SplitComma()
    ensures SplitOn("a, b", ",") == ["a", " b"]
  {
    var s := "a, b";
    assert s[1..] == ", b" && s[0] == 'a' && s[..1] != ",";
    assert ", b"[..1] == "," && ", b"[1..] == " b";
    assert " b"[..1] != "," && " b"[1..] == "b" && "b"[..1] != "," && "b"[1..] == "";
    assert SplitOn("", ",") == [""];
    assert SplitOn("b", ",") == ["b"];
    assert SplitOn(" b", ",") == [" b"];
    assert SplitOn(", b", ",") == ["", " b"];
    assert SplitOn(s[1..], ",") == ["", " b"];
    assert [s[0]] + "" == "a";
  }

  /** Lemma: `get_data` and `read_data` read the same key list differently:
      with `','` the second key keeps its leading blank. */
  lemma SeparatorsDiffer()
    ensures Keys("(a, b)", KeySepGetData) == ["a", "b"]
    ensures Keys("(a, b)", KeySepReadData) == ["a", " b"]
  {
    ExampleKeyText();
    SplitCommaSpace();
    SplitComma();
  }
}
