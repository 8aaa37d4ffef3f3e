/** Sequence vocabulary shared by the track operations: ordered selections
    (order-preserving subsequences given by their index sequence), index
    filters, sums and extrema of real sequences, and JavaScript's rounding. */
module Seqs {

  /** Strictly increasing index sequences. */
  ghost predicate Increasing(idx: seq<nat>) {
    forall i, j :: 0 <= i < j < |idx| ==> idx[i] < idx[j]
  }

  /** `r` is the subsequence of `src` at the strictly increasing positions `idx`. */
  ghost predicate IsSelection<T>(r: seq<T>, src: seq<T>, idx: seq<nat>) {
    && |idx| == |r|
    && Increasing(idx)
    && (forall k :: 0 <= k < |idx| ==> idx[k] < |src| && r[k] == src[idx[k]])
  }

  /** The elements of `src` at positions `idx`, in that order. */
  function Gather<T>(src: seq<T>, idx: seq<nat>): (r: seq<T>)
    requires forall k :: 0 <= k < |idx| ==> idx[k] < |src|
    ensures |r| == |idx|
    ensures forall k :: 0 <= k < |idx| ==> r[k] == src[idx[k]]
  {
    if idx == [] then [] else [src[idx[0]]] + Gather(src, idx[1..])
  }

  /** The positions in `[lo, n)` that satisfy `keep`, in ascending order. */
  function SelectIndices(n: nat, keep: nat -> bool, lo: nat): (r: seq<nat>)
    requires lo <= n
    ensures Increasing(r)
    ensures forall k :: 0 <= k < |r| ==> lo <= r[k] < n
    ensures forall j :: lo <= j < n ==> (j in r <==> keep(j))
    decreases n - lo
  {
    if lo == n then []
    else if keep(lo) then [lo] + SelectIndices(n, keep, lo + 1)
    else SelectIndices(n, keep, lo + 1)
  }

  /** The elements of `s` whose positions pass `keep`, in order (the source's
      index-aware `filter`). */
  function Filter<T>(s: seq<T>, keep: nat -> bool): (r: seq<T>)
    ensures exists idx :: IsSelection(r, s, idx) && forall j :: 0 <= j < |s| ==> (j in idx <==> keep(j))
    ensures |r| <= |s|
  {
    var idx := SelectIndices(|s|, keep, 0);
    IncreasingLength(idx, |s|);
    var r := Gather(s, idx);
    assert IsSelection(r, s, idx);
    r
  }

  /** When every position passes, the filter keeps the whole sequence. */
  lemma {:induction false} FilterAll<T>(s: seq<T>, keep: nat -> bool)
    requires forall j :: 0 <= j < |s| ==> keep(j)
    ensures Filter(s, keep) == s
  {
    SelectIndicesAll(|s|, keep, 0);
    GatherAll(s);
  }

  /** Framing an increasing sequence between a smaller first and a larger
      last position keeps it increasing. */
  lemma {:induction false} IncreasingFramed(lo: nat, inner: seq<nat>, hi: nat)
    requires Increasing(inner)
    requires forall k :: 0 <= k < |inner| ==> lo < inner[k] < hi
    requires lo < hi
    ensures Increasing([lo] + inner + [hi])
  {
    var r := [lo] + inner + [hi];
    forall i, j | 0 <= i < j < |r| ensures r[i] < r[j] {
      if 0 < i {
        assert r[i] == inner[i - 1];
      }
      if j < |r| - 1 {
        assert r[j] == inner[j - 1];
      }
    }
  }

  /** A strictly increasing sequence of positions below `n` has at most `n` entries. */
  lemma {:induction false} IncreasingLength(idx: seq<nat>, n: nat)
    requires Increasing(idx)
    requires forall k :: 0 <= k < |idx| ==> idx[k] < n
    ensures |idx| <= n
    decreases n
  {
    if |idx| > 0 {
      var last := idx[|idx| - 1];
      var front := idx[..|idx| - 1];
      assert forall k :: 0 <= k < |front| ==> front[k] < last;
      IncreasingLength(front, last);
    }
  }

  /** Appending one element to the source extends a selection from it: by
      that element when it is kept, by nothing otherwise. */
  lemma {:induction false} SelectionSnoc<T>(r: seq<T>, src: seq<T>, idx: seq<nat>, x: T, kept: bool)
    requires IsSelection(r, src, idx)
    ensures IsSelection(r + (if kept then [x] else []), src + [x], idx + (if kept then [|src|] else []))
    ensures forall j :: j in idx + (if kept then [|src|] else []) <==> j in idx || (kept && j == |src|)
  {
    var idx2 := idx + (if kept then [|src|] else []);
    var r2 := r + (if kept then [x] else []);
    forall k | 0 <= k < |idx2| ensures idx2[k] < |src + [x]| && r2[k] == (src + [x])[idx2[k]] {
      if k < |idx| {
        assert idx2[k] == idx[k] && r2[k] == r[k];
      }
    }
    forall i, j | 0 <= i < j < |idx2| ensures idx2[i] < idx2[j] {
      if j == |idx| {
        assert idx2[i] == idx[i];
      }
    }
  }

  /** Ascending positions `lo, lo+1, ..., hi-1`. */
  function Range(lo: nat, hi: nat): (r: seq<nat>)
    requires lo <= hi
    ensures |r| == hi - lo
    ensures forall k :: 0 <= k < |r| ==> r[k] == lo + k
    decreases hi - lo
  {
    if lo == hi then [] else [lo] + Range(lo + 1, hi)
  }

  /** When every position passes, the filter keeps all of them. */
  lemma {:induction false} SelectIndicesAll(n: nat, keep: nat -> bool, lo: nat)
    requires lo <= n
    requires forall j :: lo <= j < n ==> keep(j)
    ensures SelectIndices(n, keep, lo) == Range(lo, n)
    decreases n - lo
  {
    if lo < n {
      SelectIndicesAll(n, keep, lo + 1);
    }
  }

  /** Gathering every position in order reproduces the sequence. */
  lemma GatherAll<T>(src: seq<T>)
    ensures Gather(src, Range(0, |src|)) == src
  {
  }

  /** Sum of a sequence of reals (the source's `reduce((a, b) => a + b, 0)`). */
  function Sum(s: seq<real>): real {
    if s == [] then 0.0 else s[0] + Sum(s[1..])
  }

  /** `i` is the first position holding the greatest value of `keys`. */
  ghost predicate FirstArgMax(keys: seq<real>, i: nat) {
    && i < |keys|
    && (forall j :: 0 <= j < |keys| ==> keys[j] <= keys[i])
    && (forall j :: 0 <= j < i ==> keys[j] < keys[i])
  }

  /** `i` is the first position holding the least value of `keys`. */
  ghost predicate FirstArgMin(keys: seq<real>, i: nat) {
    && i < |keys|
    && (forall j :: 0 <= j < |keys| ==> keys[i] <= keys[j])
    && (forall j :: 0 <= j < i ==> keys[i] < keys[j])
  }

  /** Position of the first least element. */
  function MinIndex(s: seq<real>): (i: nat)
    requires |s| > 0
    ensures FirstArgMin(s, i)
  {
    if |s| == 1 then 0
    else
      var k := MinIndex(s[1..]) + 1;
      if s[0] <= s[k] then 0 else k
  }

  /** Position of the first greatest element. */
  function MaxIndex(s: seq<real>): (i: nat)
    requires |s| > 0
    ensures FirstArgMax(s, i)
  {
    if |s| == 1 then 0
    else
      var k := MaxIndex(s[1..]) + 1;
      if s[0] >= s[k] then 0 else k
  }

  lemma {:induction false} SumBounds(s: seq<real>, lo: real, hi: real)
    requires forall j :: 0 <= j < |s| ==> lo <= s[j] <= hi
    ensures (|s| as real) * lo <= Sum(s) <= (|s| as real) * hi
  {
    if s != [] {
      SumBounds(s[1..], lo, hi);
    }
  }

  /** The arithmetic mean of a non-empty sequence lies between its least and greatest element. */
  lemma {:induction false} MeanWithinRange(s: seq<real>)
    requires |s| > 0
    ensures s[MinIndex(s)] <= Sum(s) / (|s| as real) <= s[MaxIndex(s)]
  {
    MeanBetween(s, s[MinIndex(s)], s[MaxIndex(s)]);
  }

  /** Arithmetic mean; it is attained-bounded: some element lies at or below
      it and some at or above it. */
  function Mean(s: seq<real>): (m: real)
    requires |s| > 0
    ensures m == Sum(s) / (|s| as real)
    ensures exists i :: 0 <= i < |s| && s[i] <= m
    ensures exists i :: 0 <= i < |s| && m <= s[i]
  {
    var m := Sum(s) / (|s| as real);
    MeanWithinRange(s);
    assert s[MinIndex(s)] <= m <= s[MaxIndex(s)];
    m
  }

  lemma {:induction false} MeanBetween(s: seq<real>, lo: real, hi: real)
    requires |s| > 0
    requires forall j :: 0 <= j < |s| ==> lo <= s[j] <= hi
    ensures lo <= Sum(s) / (|s| as real) <= hi
  {
    SumBounds(s, lo, hi);
    DivideBounds(Sum(s), |s| as real, lo, hi);
  }

  lemma {:induction false} DivideBounds(a: real, n: real, lo: real, hi: real)
    requires n > 0.0
    requires n * lo <= a <= n * hi
    ensures lo <= a / n <= hi
  {
  }

  /** JavaScript's `Math.round`: halves round towards positive infinity. */
  function JsRound(x: real): (r: int)
    ensures x - 0.5 < r as real <= x + 0.5
  {
    (x + 0.5).Floor
  }

  function Abs(x: real): real {
    if x < 0.0 then -x else x
  }

  function AbsInt(x: int): nat {
    if x < 0 then -x else x
  }

  /** A property of the head and of every element of the tail holds of every element of the joined sequence. */
  lemma {:induction false} AllPrepend<T>(P: T -> bool, x: T, tail: seq<T>)
    requires P(x) && forall k :: 0 <= k < |tail| ==> P(tail[k])
    ensures forall k :: 0 <= k < |[x] + tail| ==> P(([x] + tail)[k])
  {
    forall k | 0 <= k < |[x] + tail| ensures P(([x] + tail)[k]) {
      if k > 0 {
        assert ([x] + tail)[k] == tail[k - 1];
      }
    }
  }

  /** `s.slice(0, end)` in JavaScript: a negative `end` counts back from the end. */
  function JsSlicePrefix<T>(s: seq<T>, end: int): (r: seq<T>)
    ensures end >= 0 ==> |r| == (if end < |s| then end else |s|)
    ensures end < 0 ==> |r| == (if |s| + end > 0 then |s| + end else 0)
    ensures r == s[..|r|]
  {
    var stop := if end < 0 then (if |s| + end > 0 then |s| + end else 0)
                else if end < |s| then end else |s|;
    s[..stop]
  }
}
