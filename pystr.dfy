/**
 * The two Python string operations the generator relies on: str.startswith and
 * str.split with an explicit, non-empty separator.
 */
module PyStr {

  /** s.startswith(prefix) */
  predicate StartsWith(s: string, prefix: string) {
    |prefix| <= |s| && s[..|prefix|] == prefix
  }

  /** sep occurs in s beginning at position i */
  predicate OccursAt(s: string, sep: string, i: nat) {
    i + |sep| <= |s| && s[i..i + |sep|] == sep
  }

  /** sep in s */
  ghost predicate Contains(s: string, sep: string) {
    exists i: nat :: OccursAt(s, sep, i)
  }

  /**
   * s.split(sep): the pieces between the leftmost, non-overlapping occurrences
   * of sep. A string without sep splits into a single piece; an empty string
   * splits into one empty piece.
   */
  function Split(s: string, sep: string): (parts: seq<string>)
    requires |sep| > 0
    ensures |parts| >= 1
    decreases |s|
  {
    if |s| < |sep| then [s]
    else if s[..|sep|] == sep then [""] + Split(s[|sep|..], sep)
    else
      var rest := Split(s[1..], sep);
      [[s[0]] + rest[0]] + rest[1..]
  }

  /** sep.join(parts), the inverse of Split */
  function Join(parts: seq<string>, sep: string): string {
    if |parts| == 0 then ""
    else if |parts| == 1 then parts[0]
    else parts[0] + sep + Join(parts[1..], sep)
  }

  /** Joining the pieces with the separator gives back the original string. */
  lemma {:induction false} JoinSplit(s: string, sep: string)
    requires |sep| > 0
    ensures Join(Split(s, sep), sep) == s
    decreases |s|
  {
    if |s| >= |sep| {
      if s[..|sep|] == sep {
        JoinSplit(s[|sep|..], sep);
        JoinSplitAtSeparator(s, sep);
      } else {
        JoinSplit(s[1..], sep);
        JoinSplitOther(s, sep);
      }
    }
  }

  lemma JoinSplitAtSeparator(s: string, sep: string)
    requires |sep| > 0 && |s| >= |sep| && s[..|sep|] == sep
    requires Join(Split(s[|sep|..], sep), sep) == s[|sep|..]
    ensures Join(Split(s, sep), sep) == s
  {
    var rest := Split(s[|sep|..], sep);
    SplitAtStart(s, sep);
    JoinEmptyFirst(rest, sep);
    assert s == s[..|sep|] + s[|sep|..];
  }

  /** A string that starts with sep splits into an empty piece and the split of the rest. */
  lemma SplitAtStart(s: string, sep: string)
    requires |sep| > 0 && |s| >= |sep| && s[..|sep|] == sep
    ensures Split(s, sep) == [""] + Split(s[|sep|..], sep)
  {
  }

  /** A string that does not start with sep keeps its first character in the first piece. */
  lemma SplitPastStart(s: string, sep: string)
    requires |sep| > 0 && |s| >= |sep| && s[..|sep|] != sep
    ensures Split(s, sep) == [[s[0]] + Split(s[1..], sep)[0]] + Split(s[1..], sep)[1..]
  {
  }

  lemma JoinSplitOther(s: string, sep: string)
    requires |sep| > 0 && |s| >= |sep| && s[..|sep|] != sep
    requires Join(Split(s[1..], sep), sep) == s[1..]
    ensures Join(Split(s, sep), sep) == s
  {
    var rest := Split(s[1..], sep);
    SplitPastStart(s, sep);
    JoinExtendFirst([s[0]], rest, sep);
    assert s == [s[0]] + s[1..];
  }

  /** An empty first piece contributes only the separator after it. */
  lemma JoinEmptyFirst(parts: seq<string>, sep: string)
    requires |parts| >= 1
    ensures Join([""] + parts, sep) == sep + Join(parts, sep)
  {
    assert ([""] + parts)[1..] == parts;
  }

  /** Text put in front of the first piece comes out in front of the join. */
  lemma JoinExtendFirst(p: string, parts: seq<string>, sep: string)
    requires |parts| >= 1
    ensures Join([p + parts[0]] + parts[1..], sep) == p + Join(parts, sep)
  {
    var q := [p + parts[0]] + parts[1..];
    if |parts| > 1 {
      assert q[1..] == parts[1..];
    }
  }

  /** The first piece is a prefix of the string. */
  lemma SplitFirstIsPrefix(s: string, sep: string)
    requires |sep| > 0
    ensures StartsWith(s, Split(s, sep)[0])
  {
    var parts := Split(s, sep);
    JoinSplit(s, sep);
    if |parts| > 1 {
      assert Join(parts, sep) == parts[0] + (sep + Join(parts[1..], sep));
    }
  }

  /** No piece contains the separator. */
  lemma {:induction false} SplitPiecesLackSeparator(s: string, sep: string)
    requires |sep| > 0
    ensures forall k :: 0 <= k < |Split(s, sep)| ==> !Contains(Split(s, sep)[k], sep)
    decreases |s|
  {
    var parts := Split(s, sep);
    if |s| < |sep| {
      assert parts == [s];
      forall i: nat ensures !OccursAt(s, sep, i) { }
    } else if s[..|sep|] == sep {
      SplitPiecesLackSeparator(s[|sep|..], sep);
      assert parts == [""] + Split(s[|sep|..], sep);
      forall i: nat ensures !OccursAt("", sep, i) { }
    } else {
      var rest := Split(s[1..], sep);
      SplitPiecesLackSeparator(s[1..], sep);
      SplitFirstIsPrefix(s[1..], sep);
      var first := [s[0]] + rest[0];
      assert parts == [first] + rest[1..];
      forall i: nat ensures !OccursAt(first, sep, i) {
        if i > 0 && i + |sep| <= |first| {
          assert first[i..i + |sep|] == rest[0][i - 1..i - 1 + |sep|];
          assert !OccursAt(rest[0], sep, i - 1);
        }
      }
      forall k | 1 <= k < |parts| ensures !Contains(parts[k], sep) {
        assert parts[k] == rest[k];
      }
    }
  }

  /** A string that never has the separator's first character splits into itself. */
  lemma {:induction false} SplitWithoutSeparator(s: string, sep: string)
    requires |sep| > 0
    requires forall i :: 0 <= i < |s| ==> s[i] != sep[0]
    ensures Split(s, sep) == [s]
    decreases |s|
  {
    if |s| >= |sep| {
      assert s[..|sep|][0] != sep[0];
      SplitWithoutSeparator(s[1..], sep);
      assert [s[0]] + s[1..] == s;
    }
  }

  /** Splitting a + sep + b, where a never has sep's first character, cuts exactly after a. */
  lemma {:induction false} SplitAfter(a: string, sep: string, b: string)
    requires |sep| > 0
    requires forall i :: 0 <= i < |a| ==> a[i] != sep[0]
    ensures Split(a + sep + b, sep) == [a] + Split(b, sep)
    decreases |a|
  {
    var s := a + sep + b;
    if |a| == 0 {
      assert s[..|sep|] == sep && s[|sep|..] == b;
    } else {
      assert s[..|sep|][0] == a[0];
      SplitAfter(a[1..], sep, b);
      assert s[1..] == a[1..] + sep + b;
      assert [a[0]] + a[1..] == a;
    }
  }

  /** A string in which sep never occurs splits into itself. */
  lemma {:induction false} SplitNoOccurrence(s: string, sep: string)
    requires |sep| > 0
    requires forall j: nat :: !OccursAt(s, sep, j)
    ensures Split(s, sep) == [s]
    decreases |s|
  {
    if |s| >= |sep| {
      assert !OccursAt(s, sep, 0);
      forall j: nat ensures !OccursAt(s[1..], sep, j) {
        assert !OccursAt(s, sep, j + 1);
        if j + |sep| <= |s[1..]| {
          assert s[1..][j..j + |sep|] == s[j + 1..j + 1 + |sep|];
        }
      }
      SplitNoOccurrence(s[1..], sep);
      assert [s[0]] + s[1..] == s;
    }
  }

  /**
   * Split cuts at the leftmost occurrence of sep and goes on after it: the
   * first piece is the text before the first occurrence, and the rest is the
   * split of what follows that occurrence, so occurrences never overlap.
   */
  lemma {:induction false} SplitAtFirstOccurrence(s: string, sep: string, i: nat)
    requires |sep| > 0
    requires OccursAt(s, sep, i)
    requires forall j: nat :: j < i ==> !OccursAt(s, sep, j)
    ensures Split(s, sep) == [s[..i]] + Split(s[i + |sep|..], sep)
    decreases i
  {
    if i == 0 {
      SplitAtStart(s, sep);
    } else {
      assert !OccursAt(s, sep, 0);
      var t := s[1..];
      LaterOccurrences(s, sep, i);
      SplitAtFirstOccurrence(t, sep, i - 1);
      SplitPastStart(s, sep);
      assert t[i - 1 + |sep|..] == s[i + |sep|..];
      assert [s[0]] + t[..i - 1] == s[..i];
    }
  }

  /** Dropping the first character moves every occurrence one position to the left. */
  lemma LaterOccurrences(s: string, sep: string, i: nat)
    requires |sep| > 0 && 0 < i
    requires OccursAt(s, sep, i)
    requires forall j: nat :: j < i ==> !OccursAt(s, sep, j)
    ensures OccursAt(s[1..], sep, i - 1)
    ensures forall j: nat :: j < i - 1 ==> !OccursAt(s[1..], sep, j)
  {
    var t := s[1..];
    assert t[i - 1..i - 1 + |sep|] == s[i..i + |sep|];
    forall j: nat | j < i - 1 ensures !OccursAt(t, sep, j) {
      assert !OccursAt(s, sep, j + 1);
      assert t[j..j + |sep|] == s[j + 1..j + 1 + |sep|];
    }
  }
}
