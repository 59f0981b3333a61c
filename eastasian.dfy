/**
 * The East Asian Width generator: it reads the lines of EastAsianWidth.txt,
 * keeps the code-point field of every line whose width class is F or W
 * (full-width and wide) or A (ambiguous), expands each code point or
 * LOW..HIGH range into its code points, and re-coalesces them into
 * (start, count) runs, one addCharactersInRange line per run.
 */
module EastAsian {
  import opened Wrappers
  import opened PyStr
  import opened Hex
  import opened Ranges

  // ---------------------------------------------------------------- parse

  /**
   * parse(s): the first code point of an entry and how many code points it
   * covers. "X" covers one; "L..H" covers H - L + 1, which is not positive
   * when L > H. Text after a second ".." is ignored. None where int(_, 16)
   * raises ValueError.
   */
  function Parse(s: string): (r: Option<(int, int)>) {
    var parts := Split(s, "..");
    if |parts| == 1 then
      match ParseHex(parts[0])
      case None => None
      case Some(v) => Some((v as int, 1))
    else
      match (ParseHex(parts[0]), ParseHex(parts[1]))
      case (Some(low), Some(high)) => Some((low as int, high as int - low as int + 1))
      case _ => None
  }

  lemma NoDots(s: string)
    requires IsHexString(s)
    ensures forall i :: 0 <= i < |s| ==> s[i] != ".."[0]
  {
  }

  /** A single code point "X" parses to (X, 1). */
  lemma ParseSingle(x: string)
    requires IsHexString(x)
    ensures Parse(x) == Some((HexValue(x), 1))
  {
    NoDots(x);
    SplitWithoutSeparator(x, "..");
  }

  /** "L..H" splits at its one "..". */
  lemma SplitRange(lo: string, hi: string)
    requires IsHexString(lo) && IsHexString(hi)
    ensures Split(lo + ".." + hi, "..") == [lo, hi]
  {
    NoDots(lo);
    NoDots(hi);
    SplitAfter(lo, "..", hi);
    SplitWithoutSeparator(hi, "..");
  }

  lemma ParseRangeValue(lo: string, hi: string)
    requires IsHexString(lo) && IsHexString(hi)
    ensures Parse(lo + ".." + hi) == Some((HexValue(lo) as int, HexValue(hi) - HexValue(lo) + 1))
  {
    SplitRange(lo, hi);
  }

  /**
   * A range "L..H" parses to (L, H - L + 1): the code points it covers end
   * exactly at H, are exactly L..H, and there is at least one exactly when L <= H.
   */
  lemma ParseRange(lo: string, hi: string)
    requires IsHexString(lo) && IsHexString(hi)
    ensures Parse(lo + ".." + hi) == Some((HexValue(lo) as int, HexValue(hi) - HexValue(lo) + 1))
    ensures var (start, count) := Parse(lo + ".." + hi).value;
      start + count - 1 == HexValue(hi) &&
      (count >= 1 <==> HexValue(lo) <= HexValue(hi)) &&
      Expand(start, count) == Interval(HexValue(lo), HexValue(hi))
  {
    ParseRangeValue(lo, hi);
    var low: int, high: int := HexValue(lo), HexValue(hi);
    ExpandIsInterval(low, high - low + 1);
  }

  /** How EastAsianWidth.txt writes the entry for the code points first..last, such as "00A1" or "3001..3003". */
  function EntryText(first: nat, last: nat): string {
    if first == last then CodePointField(first) else CodePointField(first) + ".." + CodePointField(last)
  }

  /** Reading back the field written for first..last gives its start and size. */
  lemma ParseEntryText(first: nat, last: nat)
    requires first <= last
    ensures Parse(EntryText(first, last)) == Some((first, last - first + 1))
  {
    CodePointFieldValue(first);
    CodePointFieldValue(last);
    if first == last {
      ParseSingle(CodePointField(first));
    } else {
      ParseRange(CodePointField(first), CodePointField(last));
    }
  }

  /** The sample file's own fields are written this way. */
  lemma SampleEntryTexts()
    ensures EntryText(0xA1, 0xA1) == "00A1"
    ensures EntryText(0x3001, 0x3003) == "3001..3003"
  {
    SampleFieldA1();
    SampleField300(1);
    SampleField300(3);
  }

  lemma SampleFieldA1()
    ensures CodePointField(0xA1) == "00A1"
  {
    assert FormatHex(0xA, true) == "A";
    assert FormatHex(0xA1, true) == "A1";
    assert "0" + "A1" == "0A1" && "0" + "0A1" == "00A1";
    assert ZeroPad("A1", 4) == ZeroPad("0A1", 4) == ZeroPad("00A1", 4) == "00A1";
  }

  lemma SampleField300(d: nat)
    requires d < 10
    ensures CodePointField(0x3000 + d) == "300" + [HexDigit(d, true)]
  {
    assert FormatHex(0x3, true) == "3";
    assert FormatHex(0x30, true) == "30";
    assert FormatHex(0x300, true) == "300";
    assert FormatHex(0x3000 + d, true) == "300" + [HexDigit(d, true)];
  }

  // ---------------------------------------------------------------- output

  /** All entries parsed, in order, or None when one of them does not parse. */
  function ParseAll(values: seq<string>): Option<seq<(int, int)>>
    decreases |values|
  {
    if values == [] then Some([])
    else
      match (ParseAll(values[..|values| - 1]), Parse(values[|values| - 1]))
      case (Some(es), Some(e)) => Some(es + [e])
      case _ => None
  }

  /** ParseAll succeeds exactly when every entry parses, and then lists their parses in order. */
  lemma {:induction false} ParseAllSpec(values: seq<string>)
    ensures ParseAll(values).Some? <==> forall k :: 0 <= k < |values| ==> Parse(values[k]).Some?
    ensures ParseAll(values).Some? ==>
      |ParseAll(values).value| == |values| &&
      forall k :: 0 <= k < |values| ==> ParseAll(values).value[k] == Parse(values[k]).value
    decreases |values|
  {
    if values != [] {
      var init := values[..|values| - 1];
      ParseAllSpec(init);
      assert forall k :: 0 <= k < |init| ==> init[k] == values[k];
    }
  }

  /** Once an entry fails to parse, the whole list fails, whatever follows. */
  lemma {:induction false} ParseAllFailsAfter(values: seq<string>, m: nat)
    requires m <= |values| && ParseAll(values[..m]).None?
    ensures ParseAll(values).None?
    decreases |values| - m
  {
    if m < |values| {
      assert values[..m + 1][..m] == values[..m];
      ParseAllFailsAfter(values, m + 1);
    } else {
      assert values[..m] == values;
    }
  }

  /** The code points nums holds after the expansion loop: each entry's run, in order. */
  function ExpandAll(entries: seq<(int, int)>): seq<int> {
    if entries == [] then []
    else ExpandAll(entries[..|entries| - 1]) + Expand(entries[|entries| - 1].0, entries[|entries| - 1].1)
  }

  /** Each (first, last) pair as the (start, count) pair output prints. */
  function StartCounts(groups: seq<(int, int)>): seq<(int, int)> {
    seq(|groups|, k requires 0 <= k < |groups| => (groups[k].0, groups[k].1 - groups[k].0 + 1))
  }

  /** The code points some (start, count) runs cover, in order. */
  function CountCoverage(runs: seq<(int, int)>): seq<int> {
    if runs == [] then [] else Expand(runs[0].0, runs[0].1) + CountCoverage(runs[1..])
  }

  /** The runs output(label, variable, values) prints, or None where it raises. */
  function Runs(values: seq<string>): Option<seq<(int, int)>> {
    match ParseAll(values)
    case None => None
    case Some(entries) => Some(StartCounts(GetRanges(ExpandAll(entries))))
  }

  /** Runs whose counts are all positive and that no two neighbours could be merged. */
  predicate CountRuns(runs: seq<(int, int)>) {
    (forall k :: 0 <= k < |runs| ==> runs[k].1 >= 1) &&
    (forall k :: 0 <= k < |runs| - 1 ==> runs[k].0 + runs[k].1 != runs[k + 1].0)
  }

  lemma {:induction false} StartCountsCoverage(groups: seq<(int, int)>)
    requires Nonempty(groups)
    ensures CountCoverage(StartCounts(groups)) == Coverage(groups)
    decreases |groups|
  {
    if groups != [] {
      var sc := StartCounts(groups);
      assert sc[1..] == StartCounts(groups[1..]);
      StartCountsCoverage(groups[1..]);
      ExpandIsInterval(groups[0].0, groups[0].1 - groups[0].0 + 1);
    }
  }

  /**
   * What output prints for entries that all parse: runs that cover, in order,
   * exactly the code points of the entries one after another, every count at
   * least one, no run that could be merged with the next, and no more runs
   * than code points.
   */
  lemma RunsSpec(values: seq<string>)
    requires ParseAll(values).Some?
    ensures CountCoverage(Runs(values).value) == ExpandAll(ParseAll(values).value)
    ensures CountRuns(Runs(values).value)
    ensures |Runs(values).value| <= |ExpandAll(ParseAll(values).value)|
  {
    var nums := ExpandAll(ParseAll(values).value);
    var groups := GetRanges(nums);
    GetRangesSpec(nums);
    StartCountsCoverage(groups);
    var runs := StartCounts(groups);
    forall k | 0 <= k < |runs| - 1 ensures runs[k].0 + runs[k].1 != runs[k + 1].0 {
      assert runs[k].0 + runs[k].1 == groups[k].1 + 1;
    }
  }

  /** Each (start, count) run as the (first, last) pair it covers. */
  function FirstLasts(runs: seq<(int, int)>): seq<(int, int)> {
    seq(|runs|, k requires 0 <= k < |runs| => (runs[k].0, runs[k].0 + runs[k].1 - 1))
  }

  lemma {:induction false} FirstLastsCoverage(runs: seq<(int, int)>)
    requires forall k :: 0 <= k < |runs| ==> runs[k].1 >= 1
    ensures Coverage(FirstLasts(runs)) == CountCoverage(runs)
    decreases |runs|
  {
    if runs != [] {
      var fl := FirstLasts(runs);
      assert fl[1..] == FirstLasts(runs[1..]);
      FirstLastsCoverage(runs[1..]);
      ExpandIsInterval(runs[0].0, runs[0].1);
      assert Coverage(fl) == Interval(fl[0].0, fl[0].1) + Coverage(fl[1..]);
      assert CountCoverage(runs) == Expand(runs[0].0, runs[0].1) + CountCoverage(runs[1..]);
    }
  }

  /**
   * The printed runs are the only ones with their shape: any positive-count,
   * unmergeable runs that cover the entries' code points are what output prints.
   */
  lemma RunsUnique(values: seq<string>, runs: seq<(int, int)>)
    requires ParseAll(values).Some?
    requires CountRuns(runs) && CountCoverage(runs) == ExpandAll(ParseAll(values).value)
    ensures Runs(values) == Some(runs)
  {
    FirstLastsRuns(runs);
    GetRangesUnique(ExpandAll(ParseAll(values).value), FirstLasts(runs));
  }

  /** Positive-count, unmergeable runs read as (first, last) pairs are non-empty and maximal. */
  lemma FirstLastsRuns(runs: seq<(int, int)>)
    requires CountRuns(runs)
    ensures Nonempty(FirstLasts(runs)) && Maximal(FirstLasts(runs))
    ensures Coverage(FirstLasts(runs)) == CountCoverage(runs)
    ensures StartCounts(FirstLasts(runs)) == runs
  {
    FirstLastsCoverage(runs);
  }

  /** One more entry parsed: the parsed prefix grows by its parse, or fails with it. */
  lemma ParseAllStep(values: seq<string>, n: nat, entries: seq<(int, int)>)
    requires n < |values| && ParseAll(values[..n]) == Some(entries)
    ensures ParseAll(values[..n + 1]) ==
      if Parse(values[n]).None? then None else Some(entries + [Parse(values[n]).value])
  {
    assert values[..n + 1][..n] == values[..n];
  }

  lemma ExpandAllStep(entries: seq<(int, int)>, e: (int, int))
    ensures ExpandAll(entries + [e]) == ExpandAll(entries) + Expand(e.0, e.1)
  {
    assert (entries + [e])[..|entries|] == entries;
  }

  lemma ExpandStep(start: int, i: nat)
    ensures Expand(start, i + 1) == Expand(start, i) + [start + i]
  {
  }

  /** Runs fails exactly when some entry fails to parse, and otherwise has the shape RunsSpec states. */
  lemma RunsFacts(values: seq<string>)
    ensures Runs(values).None? <==> exists k :: 0 <= k < |values| && Parse(values[k]).None?
    ensures Runs(values).Some? ==> CountRuns(Runs(values).value)
    ensures Runs(values).Some? ==> CountCoverage(Runs(values).value) == ExpandAll(ParseAll(values).value)
  {
    ParseAllSpec(values);
    if ParseAll(values).Some? {
      RunsSpec(values);
    }
  }

  /** The code points of the parsed entries, or None when one of them does not parse. */
  function Expanded(values: seq<string>): Option<seq<int>> {
    match ParseAll(values)
    case None => None
    case Some(entries) => Some(ExpandAll(entries))
  }

  /**
   * The first half of output: for each entry, parse it and append
   * start + i for i in range(count) to nums. A failing entry ends it, as the
   * ValueError does.
   */
  method ExpandEntries(values: seq<string>) returns (nums: Option<seq<int>>)
    ensures nums == Expanded(values)
  {
    var acc: seq<int> := [];
    ghost var entries: seq<(int, int)> := [];
    var n := 0;
    while n < |values|
      invariant 0 <= n <= |values|
      invariant ParseAll(values[..n]) == Some(entries)
      invariant acc == ExpandAll(entries)
    {
      var parsed := Parse(values[n]);
      ParseAllStep(values, n, entries);
      if parsed.None? {
        ParseAllFailsAfter(values, n + 1);
        return None;
      }
      var (start, count) := parsed.value;
      var i := 0;
      while i < count
        invariant 0 <= i && (i <= count || i == 0)
        invariant acc == ExpandAll(entries) + Expand(start, i)
      {
        ExpandStep(start, i);
        acc := acc + [start + i];
        i := i + 1;
      }
      assert Expand(start, count) == Expand(start, i);
      ExpandAllStep(entries, (start, count));
      entries := entries + [(start, count)];
      n := n + 1;
    }
    assert values[..n] == values;
    return Some(acc);
  }

  /**
   * output(label, variable, values) without its printing: expand every entry
   * into nums, then walk get_ranges(nums) and emit (start, count) for each run.
   */
  method Output(values: seq<string>) returns (runs: Option<seq<(int, int)>>)
    ensures runs == Runs(values)
    ensures runs.None? <==> exists k :: 0 <= k < |values| && Parse(values[k]).None?
    ensures runs.Some? ==> CountRuns(runs.value)
    ensures runs.Some? ==> CountCoverage(runs.value) == ExpandAll(ParseAll(values).value)
  {
    var expanded := ExpandEntries(values);
    if expanded.None? {
      RunsFacts(values);
      return None;
    }
    var nums := expanded.value;
    var groups := GetRanges(nums);
    var out: seq<(int, int)> := [];
    var k := 0;
    while k < |groups|
      invariant 0 <= k <= |groups|
      invariant out == StartCounts(groups)[..k]
    {
      var r := groups[k];
      var start := r.0;
      var count := r.1 - r.0 + 1;
      out := out + [(start, count)];
      k := k + 1;
    }
    assert out == StartCounts(groups);
    RunsFacts(values);
    return Some(out);
  }

  // ------------------------------------------------- two entries at a time

  /** One entry that parses: its parse, and its code points. */
  lemma ParseAllOne(a: string, ea: (int, int))
    requires Parse(a) == Some(ea)
    ensures ParseAll([a]) == Some([ea])
    ensures ExpandAll([ea]) == Expand(ea.0, ea.1)
  {
    assert [a][..0] == [] && [a][..1] == [a];
    ParseAllStep([a], 0, []);
    assert [] + [ea] == [ea];
    ExpandAllStep([], ea);
  }

  lemma ParseAllPair(a: string, b: string, ea: (int, int), eb: (int, int))
    requires Parse(a) == Some(ea) && Parse(b) == Some(eb)
    ensures ParseAll([a, b]) == Some([ea, eb])
  {
    ParseAllOne(a, ea);
    assert [a, b][..1] == [a] && [a, b][..2] == [a, b];
    ParseAllStep([a, b], 1, [ea]);
    assert [ea] + [eb] == [ea, eb];
  }

  /** start + i for i in range(a), then for i in range(b) from start + a, is one run of a + b. */
  lemma ExpandConcat(start: int, a: nat, b: nat)
    ensures Expand(start, a) + Expand(start + a, b) == Expand(start, a + b)
  {
  }

  /** A run of one single (start, count) run covers exactly that run. */
  lemma CountCoverageOne(run: (int, int))
    ensures CountCoverage([run]) == Expand(run.0, run.1)
  {
    assert [run][1..] == [];
  }

  /** A single entry covering at least one code point prints as exactly its own run. */
  lemma OneEntryOneRun(x: string, start: int, count: int)
    requires count >= 1 && Parse(x) == Some((start, count))
    ensures Runs([x]) == Some([(start, count)])
  {
    ParseAllOne(x, (start, count));
    CountCoverageOne((start, count));
    RunsUnique([x], [(start, count)]);
  }

  /**
   * Two entries where the second starts right after the first ends, such as
   * "3000" then "3001..3003", coalesce into a single run covering both.
   */
  lemma AdjacentEntriesCoalesce(x: string, y: string, start: int, count1: nat, count2: nat)
    requires count1 >= 1 && count2 >= 1
    requires Parse(x) == Some((start, count1)) && Parse(y) == Some((start + count1, count2))
    ensures Runs([x, y]) == Some([(start, count1 + count2)])
  {
    var e1, e2 := (start, count1 as int), (start + count1, count2 as int);
    ParseAllPair(x, y, e1, e2);
    ParseAllOne(x, e1);
    ExpandAllStep([e1], e2);
    assert [e1] + [e2] == [e1, e2];
    ExpandConcat(start, count1, count2);
    var run := (start, count1 + count2);
    CountCoverageOne(run);
    RunsUnique([x, y], [run]);
  }

  /**
   * Two code points with a gap between them, such as "3000" then "3002",
   * stay two runs of one.
   */
  lemma SeparateEntriesStayApart(x: string, y: string)
    requires IsHexString(x) && IsHexString(y)
    requires HexValue(y) != HexValue(x) + 1
    ensures Runs([x, y]) == Some([(HexValue(x) as int, 1), (HexValue(y) as int, 1)])
  {
    var ex: (int, int), ey: (int, int) := (HexValue(x), 1), (HexValue(y), 1);
    ParseSingle(x);
    ParseSingle(y);
    ParseAllPair(x, y, ex, ey);
    ParseAllOne(x, ex);
    ExpandAllStep([ex], ey);
    assert [ex] + [ey] == [ex, ey];
    CountCoverageOne(ey);
    assert [ex, ey][1..] == [ey];
    RunsUnique([x, y], [ex, ey]);
  }
  // ------------------------------------------------------ classification

  /** What the module-level loop does with one line of the data file. */
  datatype Disposition = Comment | TooFewFields | ToWide | ToAmbiguous | Dropped

  /**
   * A line starting with '#' is skipped, and so is one with fewer than two
   * ';'-separated fields; otherwise the second field decides: "F " or "W "
   * sends the line to wide, "A " to ambiguous, anything else drops it.
   */
  function Classify(line: string): Disposition {
    if StartsWith(line, "#") then Comment
    else
      var parts := Split(line, ";");
      if |parts| < 2 then TooFewFields
      else if StartsWith(parts[1], "F ") || StartsWith(parts[1], "W ") then ToWide
      else if StartsWith(parts[1], "A ") then ToAmbiguous
      else Dropped
  }

  /** parts[0]: the code-point field of a line, what gets appended to a list. */
  function CodePoints(line: string): string {
    Split(line, ";")[0]
  }

  /** The code-point fields of the lines with disposition d, in file order. */
  function Selected(lines: seq<string>, d: Disposition): seq<string> {
    if lines == [] then []
    else
      var last := lines[|lines| - 1];
      Selected(lines[..|lines| - 1], d) + (if Classify(last) == d then [CodePoints(last)] else [])
  }

  /** The positions of the lines with disposition d, in file order. */
  function LineIndices(lines: seq<string>, d: Disposition): seq<nat> {
    if lines == [] then []
    else
      var n := |lines| - 1;
      LineIndices(lines[..n], d) + (if Classify(lines[n]) == d then [n] else [])
  }

  /** The positions with disposition d are exactly those lines, each once, in increasing order. */
  lemma {:induction false} LineIndicesSpec(lines: seq<string>, d: Disposition)
    ensures forall k :: 0 <= k < |LineIndices(lines, d)| ==>
      LineIndices(lines, d)[k] < |lines| && Classify(lines[LineIndices(lines, d)[k]]) == d
    ensures forall k, m :: 0 <= k < m < |LineIndices(lines, d)| ==>
      LineIndices(lines, d)[k] < LineIndices(lines, d)[m]
    ensures forall i :: 0 <= i < |lines| && Classify(lines[i]) == d ==> i in LineIndices(lines, d)
  {
    LineIndicesSound(lines, d);
    LineIndicesIncreasing(lines, d);
    LineIndicesComplete(lines, d);
  }

  /** Every listed position is a line with disposition d. */
  lemma {:induction false} LineIndicesSound(lines: seq<string>, d: Disposition)
    ensures forall k :: 0 <= k < |LineIndices(lines, d)| ==>
      LineIndices(lines, d)[k] < |lines| && Classify(lines[LineIndices(lines, d)[k]]) == d
    decreases |lines|
  {
    if lines != [] {
      var n := |lines| - 1;
      var init := lines[..n];
      LineIndicesSound(init, d);
      assert forall i :: 0 <= i < n ==> init[i] == lines[i];
    }
  }

  /** The positions are listed in increasing order, so none twice. */
  lemma {:induction false} LineIndicesIncreasing(lines: seq<string>, d: Disposition)
    ensures forall k :: 0 <= k < |LineIndices(lines, d)| ==> LineIndices(lines, d)[k] < |lines|
    ensures forall k, m :: 0 <= k < m < |LineIndices(lines, d)| ==>
      LineIndices(lines, d)[k] < LineIndices(lines, d)[m]
    decreases |lines|
  {
    if lines != [] {
      var n := |lines| - 1;
      var init := lines[..n];
      LineIndicesIncreasing(init, d);
      assert |init| == n;
    }
  }

  /** Every line with disposition d has its position listed. */
  lemma {:induction false} LineIndicesComplete(lines: seq<string>, d: Disposition)
    ensures forall i :: 0 <= i < |lines| && Classify(lines[i]) == d ==> i in LineIndices(lines, d)
    decreases |lines|
  {
    if lines != [] {
      var n := |lines| - 1;
      var init := lines[..n];
      LineIndicesComplete(init, d);
      assert forall i :: 0 <= i < n ==> init[i] == lines[i];
    }
  }

  /** The list for disposition d holds the code-point field of the lines at those positions. */
  lemma {:induction false} SelectedAtIndices(lines: seq<string>, d: Disposition)
    ensures |Selected(lines, d)| == |LineIndices(lines, d)|
    ensures forall k :: 0 <= k < |LineIndices(lines, d)| ==>
      LineIndices(lines, d)[k] < |lines| &&
      Selected(lines, d)[k] == CodePoints(lines[LineIndices(lines, d)[k]])
    decreases |lines|
  {
    if lines != [] {
      var n := |lines| - 1;
      var init := lines[..n];
      SelectedAtIndices(init, d);
      assert forall i :: 0 <= i < n ==> init[i] == lines[i];
    }
  }

  /**
   * The list for disposition d holds the code-point field of exactly the lines
   * with that disposition, each once, in file order.
   */
  lemma SelectedSpec(lines: seq<string>, d: Disposition)
    ensures var ix := LineIndices(lines, d);
      (forall k :: 0 <= k < |ix| ==> ix[k] < |lines| && Classify(lines[ix[k]]) == d) &&
      (forall k, m :: 0 <= k < m < |ix| ==> ix[k] < ix[m]) &&
      (forall i :: 0 <= i < |lines| && Classify(lines[i]) == d ==> i in ix) &&
      |Selected(lines, d)| == |ix| &&
      (forall k :: 0 <= k < |ix| ==> Selected(lines, d)[k] == CodePoints(lines[ix[k]]))
  {
    LineIndicesSpec(lines, d);
    SelectedAtIndices(lines, d);
  }

  /** No line lands in both lists. */
  lemma NoLineInBoth(lines: seq<string>)
    ensures forall i :: i in LineIndices(lines, ToWide) ==> i !in LineIndices(lines, ToAmbiguous)
  {
    LineIndicesSpec(lines, ToWide);
    LineIndicesSpec(lines, ToAmbiguous);
  }

  /**
   * A data line "cp;prop", with no ';' in the property part, is classified by
   * its property field, and cp is what gets appended.
   */
  lemma ClassifyDataLine(cp: string, prop: string)
    requires forall i :: 0 <= i < |cp| ==> cp[i] != ';'
    requires cp == [] || cp[0] != '#'
    requires forall i :: 0 <= i < |prop| ==> prop[i] != ';'
    ensures CodePoints(cp + ";" + prop) == cp
    ensures Classify(cp + ";" + prop) ==
      if StartsWith(prop, "F ") || StartsWith(prop, "W ") then ToWide
      else if StartsWith(prop, "A ") then ToAmbiguous
      else Dropped
  {
    var line := cp + ";" + prop;
    SplitAfter(cp, ";", prop);
    SplitWithoutSeparator(prop, ";");
    assert Split(line, ";") == [cp, prop];
    if |cp| == 0 {
      assert line[..1] == ";";
    } else {
      assert line[..1] == cp[..1];
    }
  }

  /** A line that has no ';' at all has too few fields, unless it is a comment. */
  lemma ClassifyNoSemicolon(line: string)
    requires forall i :: 0 <= i < |line| ==> line[i] != ';'
    ensures Classify(line) == if StartsWith(line, "#") then Comment else TooFewFields
  {
    SplitWithoutSeparator(line, ";");
  }

  /**
   * The module-level loop without the file: walk the lines, skip comments and
   * short lines, append the code-point field to wide or ambiguous by the
   * second field.
   */
  method ClassifyLines(lines: seq<string>) returns (wide: seq<string>, ambiguous: seq<string>)
    ensures wide == Selected(lines, ToWide)
    ensures ambiguous == Selected(lines, ToAmbiguous)
  {
    wide, ambiguous := [], [];
    var n := 0;
    while n < |lines|
      invariant 0 <= n <= |lines|
      invariant wide == Selected(lines[..n], ToWide)
      invariant ambiguous == Selected(lines[..n], ToAmbiguous)
    {
      var line := lines[n];
      assert lines[..n + 1][..n] == lines[..n];
      n := n + 1;
      if StartsWith(line, "#") {
        continue;
      }
      var parts := Split(line, ";");
      if |parts| < 2 {
        continue;
      }
      var prop := parts[1];
      if StartsWith(prop, "F ") || StartsWith(prop, "W ") {
        wide := wide + [parts[0]];
      } else if StartsWith(prop, "A ") {
        ambiguous := ambiguous + [parts[0]];
      }
    }
    assert lines[..n] == lines;
  }

  /**
   * The whole script on the lines of the data file: the wide runs, then the
   * ambiguous runs, which are never reached when a wide entry fails to parse.
   */
  method Generate(lines: seq<string>) returns (wideRuns: Option<seq<(int, int)>>, ambiguousRuns: Option<seq<(int, int)>>)
    ensures wideRuns == Runs(Selected(lines, ToWide))
    ensures ambiguousRuns == if wideRuns.None? then None else Runs(Selected(lines, ToAmbiguous))
  {
    var wide, ambiguous := ClassifyLines(lines);
    wideRuns := Output(wide);
    if wideRuns.None? {
      return wideRuns, None;
    }
    ambiguousRuns := Output(ambiguous);
  }

  // ------------------------------------------------------- a worked file

  /**
   * Five lines in the data file's format: a comment, U+3000 (F), the range
   * U+3001..U+3003 (W), U+00A1 (A) and U+0020 (Na).
   */
  function SampleLines(): seq<string> {
    ["# EastAsianWidth\n",
     "3000" + ";" + "F # Zs\n",
     "3001..3003" + ";" + "W # Ps\n",
     "00A1" + ";" + "A # Po\n",
     "0020" + ";" + "Na # Zs\n"]
  }

  /** The comment and the narrow line are dropped; F and W go to wide, A to ambiguous. */
  lemma SampleLineKinds()
    ensures Classify(SampleLines()[0]) == Comment
    ensures Classify(SampleLines()[1]) == ToWide && CodePoints(SampleLines()[1]) == "3000"
    ensures Classify(SampleLines()[2]) == ToWide && CodePoints(SampleLines()[2]) == "3001..3003"
    ensures Classify(SampleLines()[3]) == ToAmbiguous && CodePoints(SampleLines()[3]) == "00A1"
    ensures Classify(SampleLines()[4]) == Dropped
  {
    var lines := SampleLines();
    ClassifyNoSemicolon(lines[0]);
    assert StartsWith(lines[0], "#");
    SampleWideLines();
    SampleOtherLines();
  }

  lemma SampleWideLines()
    ensures Classify("3000" + ";" + "F # Zs\n") == ToWide
    ensures CodePoints("3000" + ";" + "F # Zs\n") == "3000"
    ensures Classify("3001..3003" + ";" + "W # Ps\n") == ToWide
    ensures CodePoints("3001..3003" + ";" + "W # Ps\n") == "3001..3003"
  {
    ClassifyDataLine("3000", "F # Zs\n");
    ClassifyDataLine("3001..3003", "W # Ps\n");
    assert StartsWith("F # Zs\n", "F ") && StartsWith("W # Ps\n", "W ");
  }

  lemma SampleOtherLines()
    ensures Classify("00A1" + ";" + "A # Po\n") == ToAmbiguous
    ensures CodePoints("00A1" + ";" + "A # Po\n") == "00A1"
    ensures Classify("0020" + ";" + "Na # Zs\n") == Dropped
  {
    ClassifyDataLine("00A1", "A # Po\n");
    ClassifyDataLine("0020", "Na # Zs\n");
    assert StartsWith("A # Po\n", "A ");
    assert !StartsWith("A # Po\n", "F ") && !StartsWith("A # Po\n", "W ");
    assert !StartsWith("Na # Zs\n", "F ") && !StartsWith("Na # Zs\n", "W ") && !StartsWith("Na # Zs\n", "A ");
  }

  /** So in file order wide gets "3000" and "3001..3003", and ambiguous gets "00A1". */
  lemma SampleClassified()
    ensures Selected(SampleLines(), ToWide) == ["3000", "3001..3003"]
    ensures Selected(SampleLines(), ToAmbiguous) == ["00A1"]
  {
    var lines := SampleLines();
    SampleLineKinds();
    var l4, l3, l2, l1 := lines[..4], lines[..3], lines[..2], lines[..1];
    assert l1 == [] + [lines[0]];
    SelectedStep([], lines[0]);
    assert l2 == l1 + [lines[1]];
    SelectedStep(l1, lines[1]);
    assert l3 == l2 + [lines[2]];
    SelectedStep(l2, lines[2]);
    assert l4 == l3 + [lines[3]];
    SelectedStep(l3, lines[3]);
    assert lines == l4 + [lines[4]];
    SelectedStep(l4, lines[4]);
  }

  /** One more line adds its code-point field to the list of its class and changes no other list. */
  lemma SelectedStep(lines: seq<string>, line: string)
    ensures Selected(lines + [line], ToWide) ==
      Selected(lines, ToWide) + (if Classify(line) == ToWide then [CodePoints(line)] else [])
    ensures Selected(lines + [line], ToAmbiguous) ==
      Selected(lines, ToAmbiguous) + (if Classify(line) == ToAmbiguous then [CodePoints(line)] else [])
  {
    assert (lines + [line])[..|lines|] == lines;
  }

  /** The value of a four-digit code-point field. */
  lemma FourDigits(a: char, b: char, c: char, d: char)
    requires IsHexDigit(a) && IsHexDigit(b) && IsHexDigit(c) && IsHexDigit(d)
    ensures IsHexString([a, b, c, d])
    ensures HexValue([a, b, c, d]) ==
      ((DigitValue(a) * 16 + DigitValue(b)) * 16 + DigitValue(c)) * 16 + DigitValue(d)
  {
    assert [a][..0] == [];
    assert HexValue([a]) == DigitValue(a);
    assert [a, b][..1] == [a];
    assert HexValue([a, b]) == DigitValue(a) * 16 + DigitValue(b);
    assert [a, b, c][..2] == [a, b];
    assert HexValue([a, b, c]) == (DigitValue(a) * 16 + DigitValue(b)) * 16 + DigitValue(c);
    assert [a, b, c, d][..3] == [a, b, c];
  }

  /** The fields of the sample's F and W lines: U+3000 alone, then U+3001 to U+3003. */
  lemma SampleParsed()
    ensures Parse("3000") == Some((0x3000, 1))
    ensures Parse("3001..3003") == Some((0x3001, 3))
  {
    FourDigits('3', '0', '0', '0');
    ParseSingle("3000");
    SampleRangeParsed();
  }

  lemma SampleRangeParsed()
    ensures Parse("3001..3003") == Some((0x3001, 3))
  {
    FourDigits('3', '0', '0', '1');
    FourDigits('3', '0', '0', '3');
    ParseRange("3001", "3003");
    assert "3001..3003" == "3001" + ".." + "3003";
  }

  /** The sample's wide entries are adjacent, so output prints one run of four from U+3000. */
  lemma SampleWideRuns()
    ensures Runs(Selected(SampleLines(), ToWide)) == Some([(0x3000, 4)])
  {
    SampleClassified();
    SampleParsed();
    AdjacentEntriesCoalesce("3000", "3001..3003", 0x3000, 1, 3);
  }

  /** The sample's one ambiguous entry prints as one run of one at U+00A1. */
  lemma SampleAmbiguousRuns()
    ensures Runs(Selected(SampleLines(), ToAmbiguous)) == Some([(0xA1, 1)])
  {
    SampleClassified();
    FourDigits('0', '0', 'A', '1');
    ParseSingle("00A1");
    OneEntryOneRun("00A1", 0xA1, 1);
  }

  /**
   * What the script prints for the sample file: by the contract of Generate,
   * the wide list's one run from U+3000, then the ambiguous list's one run at U+00A1.
   */
  lemma SampleRuns()
    ensures Runs(Selected(SampleLines(), ToWide)) == Some([(0x3000, 4)])
    ensures Runs(Selected(SampleLines(), ToAmbiguous)) == Some([(0xA1, 1)])
  {
    SampleWideRuns();
    SampleAmbiguousRuns();
  }
}
