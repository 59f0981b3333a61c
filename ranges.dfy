/**
 * get_ranges: itertools.groupby over enumerate(values), keyed on value minus
 * index, yielding the first and last value of each group.
 */
module Ranges {

  /** The integers first, first + 1, ..., last (empty when first > last). */
  function Interval(first: int, last: int): (r: seq<int>)
    ensures |r| == if first <= last then last - first + 1 else 0
    ensures forall k :: 0 <= k < |r| ==> r[k] == first + k
    decreases last - first
  {
    if first > last then [] else [first] + Interval(first + 1, last)
  }

  /** start + i for i in range(count) */
  function Expand(start: int, count: int): (r: seq<int>) {
    seq(if count > 0 then count else 0, i => start + i)
  }

  /** A run of count values from start is the interval ending at start + count - 1. */
  lemma ExpandIsInterval(start: int, count: int)
    ensures Expand(start, count) == Interval(start, start + count - 1)
  {
  }

  /** difference((i, xs[i])): the grouping key of position i */
  function Key(xs: seq<int>, i: nat): int
    requires i < |xs|
  {
    xs[i] - i
  }

  /**
   * The end of the group that groupby is building: the first position at or
   * after from whose key is not key, or |xs|.
   */
  function GroupEnd(xs: seq<int>, from: nat, key: int): (j: nat)
    requires from <= |xs|
    ensures from <= j <= |xs|
    ensures forall k :: from <= k < j ==> Key(xs, k) == key
    ensures j == |xs| || Key(xs, j) != key
    decreases |xs| - from
  {
    if from < |xs| && Key(xs, from) == key then GroupEnd(xs, from + 1, key) else from
  }

  /** The pairs get_ranges yields for the groups starting at position i. */
  function RangesFrom(xs: seq<int>, i: nat): (r: seq<(int, int)>)
    requires i <= |xs|
    ensures |r| <= |xs| - i
    ensures r == [] <==> i == |xs|
    ensures r != [] ==> r[0].0 == xs[i]
    decreases |xs| - i
  {
    if i == |xs| then []
    else
      var j := GroupEnd(xs, i + 1, Key(xs, i));
      [(xs[i], xs[j - 1])] + RangesFrom(xs, j)
  }

  /** get_ranges(xs) as a list of (first, last) pairs */
  function GetRanges(xs: seq<int>): seq<(int, int)> {
    RangesFrom(xs, 0)
  }

  /** The values the (first, last) pairs cover, in order. */
  function Coverage(rs: seq<(int, int)>): seq<int> {
    if rs == [] then [] else Interval(rs[0].0, rs[0].1) + Coverage(rs[1..])
  }

  /** Every pair is a non-empty run: first <= last. */
  predicate Nonempty(rs: seq<(int, int)>) {
    forall k :: 0 <= k < |rs| ==> rs[k].0 <= rs[k].1
  }

  /** No run could be glued to the next one: the next never starts right after the last ended. */
  predicate Maximal(rs: seq<(int, int)>) {
    forall k :: 0 <= k < |rs| - 1 ==> rs[k].1 + 1 != rs[k + 1].0
  }

  /** Within a group the key is constant, so the group's values step by one. */
  lemma GroupIsInterval(xs: seq<int>, i: nat, j: nat)
    requires i < j <= |xs|
    requires forall k :: i <= k < j ==> Key(xs, k) == Key(xs, i)
    ensures xs[i..j] == Interval(xs[i], xs[j - 1])
  {
    assert Key(xs, j - 1) == Key(xs, i);
    var iv := Interval(xs[i], xs[j - 1]);
    forall k | 0 <= k < j - i ensures xs[i..j][k] == iv[k] {
      assert Key(xs, i + k) == Key(xs, i);
    }
  }

  /** The groups from position i on cover xs[i..] in order. */
  lemma {:induction false} RangesFromCoverage(xs: seq<int>, i: nat)
    requires i <= |xs|
    ensures Coverage(RangesFrom(xs, i)) == xs[i..]
    decreases |xs| - i
  {
    if i < |xs| {
      var j := GroupEnd(xs, i + 1, Key(xs, i));
      var r := RangesFrom(xs, i);
      assert r[1..] == RangesFrom(xs, j);
      RangesFromCoverage(xs, j);
      GroupIsInterval(xs, i, j);
      assert xs[i..] == xs[i..j] + xs[j..];
    }
  }

  /** Every group from position i on has first <= last. */
  lemma {:induction false} RangesFromNonempty(xs: seq<int>, i: nat)
    requires i <= |xs|
    ensures Nonempty(RangesFrom(xs, i))
    decreases |xs| - i
  {
    if i < |xs| {
      var j := GroupEnd(xs, i + 1, Key(xs, i));
      var r := RangesFrom(xs, i);
      assert r[1..] == RangesFrom(xs, j);
      RangesFromNonempty(xs, j);
      GroupIsInterval(xs, i, j);
    }
  }

  /** No group from position i on could be glued to the next. */
  lemma {:induction false} RangesFromMaximal(xs: seq<int>, i: nat)
    requires i <= |xs|
    ensures Maximal(RangesFrom(xs, i))
    decreases |xs| - i
  {
    if i < |xs| {
      var j := GroupEnd(xs, i + 1, Key(xs, i));
      var rest := RangesFrom(xs, j);
      var r := RangesFrom(xs, i);
      assert r == [(xs[i], xs[j - 1])] + rest;
      RangesFromMaximal(xs, j);
      if rest != [] {
        assert Key(xs, j - 1) == Key(xs, i) != Key(xs, j);
      }
      forall k | 0 <= k < |r| - 1 ensures r[k].1 + 1 != r[k + 1].0 {
        if k > 0 {
          assert r[k] == rest[k - 1] && r[k + 1] == rest[k];
        }
      }
    }
  }

  /**
   * Round trip and shape of get_ranges: expanding each (first, last) pair and
   * concatenating reproduces the input exactly; every pair has first <= last;
   * adjacent pairs cannot be merged; there are at most as many pairs as values,
   * and none exactly when the input is empty.
   */
  lemma GetRangesSpec(xs: seq<int>)
    ensures Coverage(GetRanges(xs)) == xs
    ensures Nonempty(GetRanges(xs)) && Maximal(GetRanges(xs))
    ensures |GetRanges(xs)| <= |xs|
    ensures GetRanges(xs) == [] <==> xs == []
  {
    RangesFromCoverage(xs, 0);
    RangesFromNonempty(xs, 0);
    RangesFromMaximal(xs, 0);
    assert xs[0..] == xs;
  }

  /** The first of some runs that cover xs from position i covers the next positions one by one. */
  lemma CoverageFront(xs: seq<int>, i: nat, rs: seq<(int, int)>)
    requires i <= |xs| && rs != [] && rs[0].0 <= rs[0].1
    requires Coverage(rs) == xs[i..]
    ensures i + rs[0].1 - rs[0].0 + 1 <= |xs|
    ensures forall k :: i <= k <= i + rs[0].1 - rs[0].0 ==> xs[k] == rs[0].0 + (k - i)
    ensures Coverage(rs[1..]) == xs[i + rs[0].1 - rs[0].0 + 1..]
  {
    var n := rs[0].1 - rs[0].0 + 1;
    var iv := Interval(rs[0].0, rs[0].1);
    assert xs[i..] == iv + Coverage(rs[1..]);
    assert xs[i..][n..] == xs[i + n..];
    forall k | i <= k < i + n ensures xs[k] == rs[0].0 + (k - i) {
      assert xs[k] == xs[i..][k - i] == iv[k - i];
    }
  }

  /** The first covering run starts at position i and ends n - 1 positions later. */
  lemma CoverageEnds(xs: seq<int>, i: nat, rs: seq<(int, int)>)
    requires i <= |xs| && rs != [] && rs[0].0 <= rs[0].1
    requires Coverage(rs) == xs[i..]
    ensures i + rs[0].1 - rs[0].0 + 1 <= |xs|
    ensures xs[i] == rs[0].0 && xs[i + rs[0].1 - rs[0].0] == rs[0].1
    ensures Coverage(rs[1..]) == xs[i + rs[0].1 - rs[0].0 + 1..]
  {
    CoverageFront(xs, i, rs);
  }

  /** Dropping the first run keeps runs non-empty and maximal. */
  lemma TailRuns(rs: seq<(int, int)>)
    requires rs != [] && Nonempty(rs) && Maximal(rs)
    ensures Nonempty(rs[1..]) && Maximal(rs[1..])
  {
    var tail := rs[1..];
    forall k | 0 <= k < |tail| - 1 ensures tail[k].1 + 1 != tail[k + 1].0 {
      assert tail[k] == rs[k + 1] && tail[k + 1] == rs[k + 2];
    }
  }

  /** Covering a suffix that is not empty needs some run, and the first value is where it starts. */
  lemma CoverageStart(rs: seq<(int, int)>)
    requires Nonempty(rs) && Coverage(rs) != []
    ensures rs != [] && Coverage(rs)[0] == rs[0].0
  {
  }

  /** The position that ends a block of equal keys is the group's end. */
  lemma GroupEndAt(xs: seq<int>, from: nat, key: int, j: nat)
    requires from <= j <= |xs|
    requires forall k :: from <= k < j ==> Key(xs, k) == key
    requires j == |xs| || Key(xs, j) != key
    ensures GroupEnd(xs, from, key) == j
  {
  }

  /** Any non-empty, maximal runs that cover xs from position i are what groupby yields there. */
  lemma {:induction false} RangesFromUnique(xs: seq<int>, i: nat, rs: seq<(int, int)>)
    requires i <= |xs|
    requires Coverage(rs) == xs[i..] && Nonempty(rs) && Maximal(rs)
    ensures RangesFrom(xs, i) == rs
    decreases |xs| - i
  {
    if rs == [] {
      assert xs[i..] == [];
    } else {
      var a, b := rs[0].0, rs[0].1;
      var n := b - a + 1;
      CoverageEnds(xs, i, rs);
      TailRuns(rs);
      FirstGroupEnds(xs, i, rs);
      RangesFromUnique(xs, i + n, rs[1..]);
      RangesFromFirst(xs, i, a, b, rs[1..]);
      assert rs == [(a, b)] + rs[1..];
    }
  }

  /** When the group at position i runs from a to b, groupby yields (a, b) and then the groups after it. */
  lemma RangesFromFirst(xs: seq<int>, i: nat, a: int, b: int, rest: seq<(int, int)>)
    requires i < |xs| && a <= b && i + b - a + 1 <= |xs|
    requires xs[i] == a && xs[i + b - a] == b
    requires GroupEnd(xs, i + 1, Key(xs, i)) == i + b - a + 1
    requires RangesFrom(xs, i + b - a + 1) == rest
    ensures RangesFrom(xs, i) == [(a, b)] + rest
  {
  }

  /** The group starting at position i ends exactly where the first covering run ends. */
  lemma FirstGroupEnds(xs: seq<int>, i: nat, rs: seq<(int, int)>)
    requires i < |xs| && rs != []
    requires Coverage(rs) == xs[i..] && Nonempty(rs) && Maximal(rs)
    ensures GroupEnd(xs, i + 1, Key(xs, i)) == i + rs[0].1 - rs[0].0 + 1
  {
    var n := rs[0].1 - rs[0].0 + 1;
    CoverageFront(xs, i, rs);
    forall k | i + 1 <= k < i + n ensures Key(xs, k) == Key(xs, i) {
    }
    if i + n < |xs| {
      assert xs[i + n] == xs[i + n..][0];
      CoverageStart(rs[1..]);
      assert rs[1..][0] == rs[1];
      assert Key(xs, i + n) != Key(xs, i);
    }
    GroupEndAt(xs, i + 1, Key(xs, i), i + n);
  }

  /**
   * get_ranges is the only answer with its shape: any sequence of non-empty,
   * maximal runs that covers xs in order equals GetRanges(xs).
   */
  lemma GetRangesUnique(xs: seq<int>, rs: seq<(int, int)>)
    requires Coverage(rs) == xs && Nonempty(rs) && Maximal(rs)
    ensures GetRanges(xs) == rs
  {
    assert xs[0..] == xs;
    RangesFromUnique(xs, 0, rs);
  }
}
