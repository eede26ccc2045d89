/** Shared vocabulary of the light-curve model: optional values (NaN is `None`),
    results that carry the Python exception a step would raise, and the
    NaN-aware comparisons and arithmetic numpy performs on float arrays. */
module Common {

  datatype Option<+T> = None | Some(value: T)

  /** The Python exception classes the modelled code can raise. */
  datatype PyError = IndexError | ValueError | KeyError | TypeError | ZeroDivisionError

  /** The outcome of a step: a value, or the exception it raises. */
  datatype Result<+T> = Success(value: T) | Failure(error: PyError)

  /** A float that may be NaN: `None` plays NaN. */
  type Num = Option<real>

  /** `a < b` on floats: every comparison involving NaN is false
      (section 5.11 of IEEE 754-2008, unordered operands). */
  predicate Less(a: Num, b: Num)
  {
    a.Some? && b.Some? && a.value < b.value
  }

  /** `a > b` on floats, false whenever an operand is NaN. */
  predicate Greater(a: Num, b: Num)
  {
    a.Some? && b.Some? && a.value > b.value
  }

  /** `a - b` on floats: NaN as soon as one operand is NaN. */
  function Sub(a: Num, b: Num): Num
  {
    if a.Some? && b.Some? then Some(a.value - b.value) else None
  }

  /** `a + b` on floats: NaN as soon as one operand is NaN. */
  function Add(a: Num, b: Num): Num
  {
    if a.Some? && b.Some? then Some(a.value + b.value) else None
  }

  /** The elements of `xs` are in strictly ascending order. */
  predicate StrictlyAscending(xs: seq<real>)
  {
    forall i, j :: 0 <= i < j < |xs| ==> xs[i] < xs[j]
  }

  /** The positions where `m` holds, in ascending order. */
  function TrueIndexes(m: seq<bool>): (idx: seq<nat>)
    ensures |idx| <= |m|
    ensures forall k :: 0 <= k < |idx| ==> idx[k] < |m| && m[idx[k]]
    ensures forall k, l :: 0 <= k < l < |idx| ==> idx[k] < idx[l]
  {
    if |m| == 0 then []
    else
      var n := |m| - 1;
      var prev := TrueIndexes(m[..n]);
      if m[n] then prev + [n] else prev
  }

  /** Lemma: every position where `m` holds is listed. */
  lemma {:induction false} TrueIndexesComplete(m: seq<bool>, i: nat)
    requires i < |m| && m[i]
    ensures i in TrueIndexes(m)
  {
    var n := |m| - 1;
    if i < n {
      TrueIndexesComplete(m[..n], i);
    }
  }
}
