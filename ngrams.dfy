/** `get_ngrams` (utils.py): `zip` over `tee` copies of the input, copy `i`
    advanced by `islice(it, i, step)`. The third argument lands in islice's
    STOP position, so it truncates the input rather than striding. */
module Ngrams {
  import opened Errors

  /** Where an iterator over `xs` stops under islice's `stop`: the end of
      the input, or `stop` when that comes first. */
  function StopIndex(len: nat, stop: Option<nat>): nat {
    if stop.Some? && stop.value < len then stop.value else len
  }

  /** `islice(iter(xs), start, stop)`, drawn one item at a time: skip `start`
      items, then yield until `stop` items have been drawn or the input ends. */
  function Islice<T>(xs: seq<T>, start: nat, stop: Option<nat>): (r: seq<T>)
    ensures r == if start <= StopIndex(|xs|, stop) then xs[start..StopIndex(|xs|, stop)] else []
    decreases |xs|
  {
    var next := if stop.Some? && stop.value > 0 then Some(stop.value - 1) else None;
    if xs == [] || (stop.Some? && stop.value == 0) then []
    else if start > 0 then Islice(xs[1..], start - 1, next)
    else [xs[0]] + Islice(xs[1..], 0, next)
  }

  /** `zip(*columns)`: one row per step, the i-th item of each row drawn from
      the i-th column, until some column runs out; no columns, no rows. */
  function Zip<T>(columns: seq<seq<T>>): (rows: seq<seq<T>>)
    ensures |columns| == 0 ==> rows == []
    ensures forall i :: 0 <= i < |columns| ==> |rows| <= |columns[i]|
    ensures |columns| > 0 ==> exists i :: 0 <= i < |columns| && |rows| == |columns[i]|
    ensures forall k :: 0 <= k < |rows| ==> |rows[k]| == |columns|
    ensures forall k, i :: 0 <= k < |rows| && 0 <= i < |columns| ==> rows[k][i] == columns[i][k]
    decreases if |columns| == 0 then 0 else |columns[0]|
  {
    if |columns| == 0 || exists i :: 0 <= i < |columns| && columns[i] == [] then []
    else
      var heads := seq(|columns|, i requires 0 <= i < |columns| => columns[i][0]);
      var tails := seq(|columns|, i requires 0 <= i < |columns| => columns[i][1..]);
      assert forall i :: 0 <= i < |columns| ==> |tails[i]| + 1 == |columns[i]|;
      [heads] + Zip(tails)
  }

  /** `get_ngrams(elements, ngramLength, step)`; `tee` rejects a negative
      count and `islice` a negative stop, both with `ValueError`. With no
      copies `zip()` is empty and `islice` is never called. */
  function GetNgrams<T>(elements: seq<T>, ngramLength: int, step: Option<int>): Result<seq<seq<T>>> {
    if ngramLength < 0 then Err(ValueError)
    else if ngramLength >= 1 && step.Some? && step.value < 0 then Err(ValueError)
    else
      var stop: Option<nat> := if step.Some? && step.value >= 0 then Some(step.value) else None;
      Ok(Zip(seq(ngramLength, i requires 0 <= i < ngramLength => Islice(elements, i, stop))))
  }

  /** The reference: every run of `n` consecutive elements, left to right. */
  function Windows<T>(xs: seq<T>, n: nat): seq<seq<T>>
    requires n >= 1
  {
    seq(if |xs| >= n then |xs| - n + 1 else 0, k requires 0 <= k <= |xs| - n => xs[k..k + n])
  }

  /** Copy `i` of the input with no stop is `xs` from position `i` on. */
  lemma ShiftedCopies<T>(xs: seq<T>, n: nat, columns: seq<seq<T>>)
    requires columns == seq(n, i requires 0 <= i < n => Islice(xs, i, None))
    ensures forall i :: 0 <= i < n ==> |columns[i]| == if i <= |xs| then |xs| - i else 0
    ensures forall i, k :: 0 <= i < n && 0 <= k < |columns[i]| ==> columns[i][k] == xs[i + k]
  {
    forall i | 0 <= i < n
      ensures |columns[i]| == (if i <= |xs| then |xs| - i else 0)
      ensures forall k :: 0 <= k < |columns[i]| ==> columns[i][k] == xs[i + k]
    {
      assert columns[i] == Islice(xs, i, None);
    }
  }

  /** Without a third argument and with `n >= 1`, the n-grams are the
      `max(0, |xs| - n + 1)` windows `xs[k..k + n]`. */
  lemma NgramsAreWindows<T>(xs: seq<T>, n: int)
    requires n >= 1
    ensures GetNgrams(xs, n, None) == Ok(Windows(xs, n))
  {
    var columns := seq(n, i requires 0 <= i < n => Islice(xs, i, None));
    ShiftedCopies(xs, n, columns);
    ZipOfShiftedCopies(xs, n, columns);
    var stop: Option<nat> := None;
    assert seq(n, i requires 0 <= i < n => Islice(xs, i, stop)) == columns;
  }

  /** Zipping `n` copies of `xs`, copy `i` shifted by `i`, yields the
      windows of length `n`. */
  lemma ZipOfShiftedCopies<T>(xs: seq<T>, n: nat, columns: seq<seq<T>>)
    requires n >= 1 && |columns| == n
    requires forall i :: 0 <= i < n ==> |columns[i]| == if i <= |xs| then |xs| - i else 0
    requires forall i, k :: 0 <= i < n && 0 <= k < |columns[i]| ==> columns[i][k] == xs[i + k]
    ensures Zip(columns) == Windows(xs, n)
  {
    var rows := Zip(columns);
    var count := if |xs| >= n then |xs| - n + 1 else 0;
    assert |rows| <= |columns[n - 1]| == count;
    assert |rows| == count;
    forall k | 0 <= k < count ensures rows[k] == xs[k..k + n] {
      forall i | 0 <= i < n ensures rows[k][i] == xs[k + i] {
        assert rows[k][i] == columns[i][k];
      }
    }
    assert rows == Windows(xs, n);
  }

  /** `get_ngrams(xs, 0)` is empty, whatever the third argument: `zip()`
      gets no iterators. */
  lemma NgramsOfLengthZero<T>(xs: seq<T>, step: Option<int>)
    ensures GetNgrams(xs, 0, step) == Ok([])
  {
  }

  /** A third argument `s >= 0` cuts the input to its first `s` elements. */
  lemma NgramsStopTruncates<T>(xs: seq<T>, n: int, s: int)
    requires s >= 0
    ensures GetNgrams(xs, n, Some(s)) == GetNgrams(xs[..if s < |xs| then s else |xs|], n, None)
  {
    if n >= 1 {
      var cut := xs[..if s < |xs| then s else |xs|];
      var stopped := seq(n, i requires 0 <= i < n => Islice(xs, i, Some(s)));
      var truncated := seq(n, i requires 0 <= i < n => Islice(cut, i, None));
      forall i | 0 <= i < n ensures stopped[i] == truncated[i] {
        if i <= |cut| {
          assert xs[i..|cut|] == cut[i..];
        }
      }
      assert stopped == truncated;
      var stop: Option<nat> := Some(s);
      assert seq(n, i requires 0 <= i < n => Islice(xs, i, stop)) == stopped;
      var none: Option<nat> := None;
      assert seq(n, i requires 0 <= i < n => Islice(cut, i, none)) == truncated;
    }
  }

  /** The third argument is no stride: with 2 it keeps one bigram of five items. */
  lemma NgramsStepIsNotStride()
    ensures GetNgrams([1, 2, 3, 4, 5], 2, Some(2)) == Ok([[1, 2]])
  {
    NgramsStopTruncates([1, 2, 3, 4, 5], 2, 2);
    NgramsAreWindows([1, 2], 2);
    assert [1, 2, 3, 4, 5][..2] == [1, 2];
    assert Windows([1, 2], 2)[0] == [1, 2][0..2] == [1, 2];
    assert Windows([1, 2], 2) == [[1, 2]];
  }

  /** `ValueError` from `tee` for a negative length, and from `islice` for a
      negative third argument once at least one copy is sliced. */
  lemma NgramsErrors<T>(xs: seq<T>, n: int, step: Option<int>)
    ensures GetNgrams(xs, n, step).Err? <==> n < 0 || (n >= 1 && step.Some? && step.value < 0)
    ensures GetNgrams(xs, n, step).Err? ==> GetNgrams(xs, n, step).error == ValueError
  {
  }
}
