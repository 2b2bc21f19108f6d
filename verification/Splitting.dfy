/** Splitting on a delimiter and joining again: which segment lists come back unchanged. */
module Splitting {
  import opened Wrappers
  import opened Texts

  lemma IndexOfIs(s: string, t: string, i: nat)
    requires OccursAt(s, t, i) && forall j: nat | j < i :: !OccursAt(s, t, j)
    ensures IndexOf(s, t) == Some(i)
  {
  }

  /** Whether the first delimiter after a segment is the one that was put there. */
  predicate Closed(segment: string, delimiter: string) {
    IndexOf(segment + delimiter, delimiter) == Some(|segment|)
  }

  predicate DelimiterFree(segment: string, delimiter: string) {
    IndexOf(segment, delimiter).None?
  }

  predicate AllClosed(segments: seq<string>, delimiter: string) {
    forall i | 0 <= i < |segments| :: Closed(segments[i], delimiter)
  }

  lemma ClosedIsFree(segment: string, delimiter: string)
    requires delimiter != [] && Closed(segment, delimiter)
    ensures DelimiterFree(segment, delimiter)
  {
    var i := IndexOf(segment, delimiter);
    if i.Some? {
      assert (segment + delimiter)[i.value..i.value + |delimiter|] == segment[i.value..i.value + |delimiter|];
      assert OccursAt(segment + delimiter, delimiter, i.value);
    }
  }

  /** For a one-character delimiter both say that the segment does not contain it. */
  lemma OneCharacter(segment: string, d: char)
    ensures Closed(segment, [d]) <==> d !in segment
    ensures DelimiterFree(segment, [d]) <==> d !in segment
  {
    var s := segment + [d];
    assert forall j | 0 <= j < |s| :: s[j..j + 1] == [s[j]];
    assert forall j | 0 <= j < |segment| :: segment[j..j + 1] == [segment[j]];
    assert OccursAt(s, [d], |segment|);
    if d in segment {
      var i :| 0 <= i < |segment| && segment[i] == d;
      assert OccursAt(segment, [d], i) && OccursAt(s, [d], i);
    } else {
      forall j: nat | j < |segment| ensures !OccursAt(s, [d], j) {
        assert s[j..j + 1] == [s[j]] && s[j] == segment[j];
      }
      IndexOfIs(s, [d], |segment|);
      assert forall j: nat :: OccursAt(segment, [d], j) ==> segment[j] == d;
    }
  }

  // ----- splitting -----

  lemma {:induction false} JoinSplit(s: string, delimiter: string)
    requires delimiter != []
    ensures Join(Split(s, delimiter), delimiter) == s
    decreases |s|
  {
    hide IndexOf;
    var at := IndexOf(s, delimiter);
    if at.Some? {
      var rest := s[at.value + |delimiter|..];
      JoinSplit(rest, delimiter);
      assert Split(s, delimiter)[1..] == Split(rest, delimiter);
      assert s == s[..at.value] + delimiter + rest;
    }
  }

  /** The first delimiter in `segment + delimiter + rest` closes the segment, if anything does. */
  lemma ClosedWithin(segment: string, delimiter: string, rest: string)
    requires delimiter != []
    ensures Closed(segment, delimiter) <==> IndexOf(segment + delimiter + rest, delimiter) == Some(|segment|)
  {
    var short, long := segment + delimiter, segment + delimiter + rest;
    forall j: nat | j <= |segment| ensures OccursAt(short, delimiter, j) <==> OccursAt(long, delimiter, j) {
      assert long[j..j + |delimiter|] == short[j..j + |delimiter|];
    }
    assert short[|segment|..|segment| + |delimiter|] == delimiter;
    assert OccursAt(short, delimiter, |segment|) && OccursAt(long, delimiter, |segment|);
    if Closed(segment, delimiter) {
      IndexOfIs(long, delimiter, |segment|);
    }
    if IndexOf(long, delimiter) == Some(|segment|) {
      IndexOfIs(short, delimiter, |segment|);
    }
  }

  lemma SplitStep(segment: string, delimiter: string, rest: string)
    requires delimiter != [] && Closed(segment, delimiter)
    ensures Split(segment + delimiter + rest, delimiter) == [segment] + Split(rest, delimiter)
  {
    var s := segment + delimiter + rest;
    ClosedWithin(segment, delimiter, rest);
    assert s[..|segment|] == segment && s[|segment| + |delimiter|..] == rest;
  }

  lemma AllClosedCons(first: string, others: seq<string>, delimiter: string)
    ensures AllClosed([first] + others, delimiter) <==> Closed(first, delimiter) && AllClosed(others, delimiter)
  {
    var all := [first] + others;
    assert all[0] == first;
    assert forall i | 0 <= i < |others| :: all[i + 1] == others[i];
  }

  /** Every part a split yields is closed, and the last one is free of the delimiter. */
  lemma {:induction false} PartsAreClosed(s: string, delimiter: string)
    requires delimiter != []
    ensures var parts := Split(s, delimiter);
      AllClosed(parts[..|parts| - 1], delimiter) && DelimiterFree(parts[|parts| - 1], delimiter)
    decreases |s|
  {
    var at := IndexOf(s, delimiter);
    if at.Some? {
      var first, rest := s[..at.value], s[at.value + |delimiter|..];
      var tail := Split(rest, delimiter);
      PartsAreClosed(rest, delimiter);
      FirstIsClosed(s, delimiter);
      var parts := [first] + tail;
      assert parts[..|parts| - 1] == [first] + tail[..|tail| - 1];
      AllClosedCons(first, tail[..|tail| - 1], delimiter);
    }
  }

  lemma FirstIsClosed(s: string, delimiter: string)
    requires delimiter != [] && IndexOf(s, delimiter).Some?
    ensures Closed(s[..IndexOf(s, delimiter).value], delimiter)
  {
    hide Closed;
    var at := IndexOf(s, delimiter).value;
    assert s == s[..at] + delimiter + s[at + |delimiter|..];
    ClosedWithin(s[..at], delimiter, s[at + |delimiter|..]);
  }

  lemma {:induction false} JoinAppend(a: seq<string>, b: seq<string>, delimiter: string)
    requires a != [] && b != []
    ensures Join(a + b, delimiter) == Join(a, delimiter) + delimiter + Join(b, delimiter)
    decreases |a|
  {
    assert (a + b)[1..] == a[1..] + b;
    if |a| > 1 {
      JoinAppend(a[1..], b, delimiter);
    } else {
      assert a[1..] + b == b;
    }
  }

  lemma SplitPrefixStep(first: string, others: seq<string>, joined: string, delimiter: string, rest: string,
      tail: seq<string>)
    requires delimiter != [] && Closed(first, delimiter)
    requires Split(joined + delimiter + rest, delimiter) == others + tail
    ensures Split(first + delimiter + joined + delimiter + rest, delimiter) == [first] + others + tail
  {
    hide Split, Closed;
    var after := joined + delimiter + rest;
    assert first + delimiter + joined + delimiter + rest == first + delimiter + after;
    SplitStep(first, delimiter, after);
    assert [first] + (others + tail) == [first] + others + tail;
  }

  /** A string made of closed segments and a remainder splits into them. */
  lemma {:induction false} SplitPrefix(segments: seq<string>, delimiter: string, rest: string)
    requires delimiter != [] && segments != [] && AllClosed(segments, delimiter)
    ensures Split(Join(segments, delimiter) + delimiter + rest, delimiter) == segments + Split(rest, delimiter)
    decreases |segments|
  {
    var first, others := segments[0], segments[1..];
    assert segments == [first] + others;
    AllClosedCons(first, others, delimiter);
    if |segments| == 1 {
      assert Join(segments, delimiter) == first;
      SplitStep(first, delimiter, rest);
    } else {
      var joined := Join(others, delimiter);
      assert Join(segments, delimiter) == first + delimiter + joined;
      SplitPrefix(others, delimiter, rest);
      SplitPrefixStep(first, others, joined, delimiter, rest, Split(rest, delimiter));
    }
  }

  /** Whether joining and splitting gives the same segments back. */
  predicate SplitsBack(segments: seq<string>, delimiter: string) {
    segments != [] && AllClosed(segments[..|segments| - 1], delimiter) &&
    DelimiterFree(segments[|segments| - 1], delimiter)
  }

  lemma SplitJoin(segments: seq<string>, delimiter: string)
    requires delimiter != [] && segments != []
    ensures Split(Join(segments, delimiter), delimiter) == segments <==> SplitsBack(segments, delimiter)
  {
    PartsAreClosed(Join(segments, delimiter), delimiter);
    if SplitsBack(segments, delimiter) {
      var front, last := segments[..|segments| - 1], segments[|segments| - 1];
      assert segments == front + [last];
      if front != [] {
        JoinAppend(front, [last], delimiter);
        SplitPrefix(front, delimiter, last);
      }
    }
  }

  /** A join of more segments is longer, so a segment list's proper prefix never joins to the same string. */
  lemma {:induction false} JoinGrows(segments: seq<string>, k: nat, delimiter: string)
    requires delimiter != [] && 1 <= k < |segments|
    ensures |Join(segments[..k], delimiter)| < |Join(segments, delimiter)|
  {
    assert segments == segments[..k] + segments[k..];
    JoinAppend(segments[..k], segments[k..], delimiter);
  }
}
