/** The splicing that the colour formatter performs: every match of a line
    is wrapped in the ANSI "red foreground" start marker and the "reset"
    end marker. `Highlighted` is what the splice loop computes; the lemmas
    say where each match lands and how the markers come off again. */
module Highlight {
  import opened Spans

  const Esc: char := '\U{1b}'
  /** ESC [ 3 1 m */
  const StartColor: string := "\U{1b}[31m"
  /** ESC [ 0 m */
  const EndColor: string := "\U{1b}[0m"

  /** The start marker is five characters and the end marker four, so one
      pair shifts every later position by nine. */
  lemma MarkerWidths()
    ensures |StartColor| == 5 && |EndColor| == 4
    ensures StartColor[0] == Esc && EndColor[0] == Esc && EndColor[3] == 'm'
  {
  }

  /** The spans before the last one all end before the last one starts. */
  lemma InitWellFormed(spans: seq<Span>, len: nat)
    requires WellFormed(spans, len) && spans != []
    ensures WellFormed(spans[..|spans| - 1], spans[|spans| - 1].start)
  {
    var n := |spans| - 1;
    forall j | 0 <= j < n ensures spans[..n][j].end <= spans[n].start {
      assert spans[j].end <= spans[n].start;
    }
  }

  /** One match, wrapped in its marker pair, followed by the rest. */
  function Wrap(mid: string, rest: string): string {
    StartColor + (mid + (EndColor + rest))
  }

  /** The line with every span wrapped in a marker pair. The last span is
      peeled off first, so the spans before it act on the text before it. */
  function Highlighted(line: string, spans: seq<Span>): (r: string)
    requires WellFormed(spans, |line|)
    ensures |r| == |line| + 9 * |spans|
    decreases |spans|
  {
    if spans == [] then line
    else
      var n := |spans| - 1;
      var last := spans[n];
      InitWellFormed(spans, |line|);
      Highlighted(line[..last.start], spans[..n]) + Wrap(line[last.start..last.end], line[last.end..])
  }

  lemma SliceOfFront<T>(a: seq<T>, b: seq<T>, i: nat, j: nat)
    requires i <= j <= |a|
    ensures (a + b)[i..j] == a[i..j]
  {
  }

  lemma SliceOfBack<T>(a: seq<T>, b: seq<T>, i: nat, j: nat)
    requires |a| <= i <= j <= |a| + |b|
    ensures (a + b)[i..j] == b[i - |a|..j - |a|]
  {
  }

  lemma WrapAppend(mid: string, rest: string, z: string)
    ensures Wrap(mid, rest) + z == Wrap(mid, rest + z)
  {
  }

  /** Text after the end of every span is copied unchanged. */
  lemma HighlightedCut(line: string, spans: seq<Span>, m: nat)
    requires WellFormed(spans, |line|) && m <= |line|
    requires forall k :: 0 <= k < |spans| ==> spans[k].end <= m
    ensures WellFormed(spans, m)
    ensures Highlighted(line, spans) == Highlighted(line[..m], spans) + line[m..]
  {
    CutWellFormed(spans, |line|, m);
    if spans == [] {
      assert line == line[..m] + line[m..];
    } else {
      HighlightedCutLast(line, spans, m);
    }
  }

  lemma CutWellFormed(spans: seq<Span>, len: nat, m: nat)
    requires WellFormed(spans, len)
    requires forall k :: 0 <= k < |spans| ==> spans[k].end <= m
    ensures WellFormed(spans, m)
  {
  }

  lemma HighlightedCutLast(line: string, spans: seq<Span>, m: nat)
    requires WellFormed(spans, |line|) && WellFormed(spans, m) && m <= |line| && spans != []
    ensures Highlighted(line, spans) == Highlighted(line[..m], spans) + line[m..]
  {
    var n := |spans| - 1;
    var last := spans[n];
    var front := Highlighted(line[..last.start], spans[..n]);
    var mid, tail := line[last.start..last.end], line[..m][last.end..];
    HighlightedLast(line, spans);
    HighlightedLast(line[..m], spans);
    assert line[..m][..last.start] == line[..last.start];
    assert line[..m][last.start..last.end] == mid;
    assert tail + line[m..] == line[last.end..];
    WrapAppend(mid, tail, line[m..]);
    Assoc(front, Wrap(mid, tail), line[m..]);
  }

  /** Unfolds `Highlighted` once: the last span, wrapped, after the
      highlighting of the text before it. */
  lemma HighlightedLast(line: string, spans: seq<Span>)
    requires WellFormed(spans, |line|) && spans != []
    ensures var n := |spans| - 1; var last := spans[n];
      WellFormed(spans[..n], last.start) &&
      Highlighted(line, spans) ==
        Highlighted(line[..last.start], spans[..n]) + Wrap(line[last.start..last.end], line[last.end..])
  {
    InitWellFormed(spans, |line|);
  }

  /** Text before the start of every span is copied unchanged. */
  lemma {:induction false} HighlightedPrefix(line: string, spans: seq<Span>, m: nat)
    requires WellFormed(spans, |line|) && m <= |line|
    requires forall k :: 0 <= k < |spans| ==> m <= spans[k].start
    ensures Highlighted(line, spans)[..m] == line[..m]
    decreases |spans|
  {
    if spans != [] {
      var n := |spans| - 1;
      var last := spans[n];
      HighlightedLast(line, spans);
      HighlightedPrefix(line[..last.start], spans[..n], m);
      var front := Highlighted(line[..last.start], spans[..n]);
      SliceOfFront(front, Wrap(line[last.start..last.end], line[last.end..]), 0, m);
      assert line[..last.start][..m] == line[..m];
    }
  }

  /** `r` holds, from index `at` on, the start marker, then `mid`, then the
      end marker. */
  predicate WrappedAt(r: string, at: nat, mid: string) {
    at + 9 + |mid| <= |r| && r[at..at + 9 + |mid|] == StartColor + mid + EndColor
  }

  lemma WrappedAtFront(a: string, b: string, at: nat, mid: string)
    requires WrappedAt(a, at, mid)
    ensures WrappedAt(a + b, at, mid)
  {
    SliceOfFront(a, b, at, at + 9 + |mid|);
  }

  /** A wrapped match starts with an escape and ends with `m`. */
  lemma WrappedAtEnds(r: string, at: nat, mid: string)
    requires WrappedAt(r, at, mid)
    ensures r[at] == Esc && r[at + 8 + |mid|] == 'm'
  {
    MarkerWidths();
    var w := StartColor + mid + EndColor;
    assert r[at] == w[0];
    assert r[at + 8 + |mid|] == w[8 + |mid|];
  }

  /** Where the three middle parts of `x + (a + (b + (c + d)))` sit. */
  lemma ThreeParts(x: string, a: string, b: string, c: string, d: string)
    ensures var r := x + (a + (b + (c + d)));
      r[|x|..|x| + |a|] == a &&
      r[|x| + |a|..|x| + |a| + |b|] == b &&
      r[|x| + |a| + |b|..|x| + |a| + |b| + |c|] == c
  {
  }

  lemma WrappedAtWrap(front: string, mid: string, tail: string, at: nat)
    requires at == |front|
    ensures WrappedAt(front + Wrap(mid, tail), at, mid)
  {
    MarkerWidths();
    var w := StartColor + mid + EndColor;
    assert Wrap(mid, tail) == w + tail;
    SliceOfBack(front, w + tail, |front|, |front| + |w|);
    SliceOfFront(w, tail, 0, |w|);
  }

  /** Where the k-th match (counting from 0) lands: its start marker at
      `start + 9k`, its original text `line[start..end]` right after it, and
      its end marker right after that. */
  lemma {:induction false} MatchPlacement(line: string, spans: seq<Span>, k: nat)
    requires WellFormed(spans, |line|) && k < |spans|
    ensures WrappedAt(Highlighted(line, spans), spans[k].start + 9 * k, line[spans[k].start..spans[k].end])
    decreases |spans|
  {
    var n := |spans| - 1;
    var last := spans[n];
    HighlightedLast(line, spans);
    var pre := line[..last.start];
    var front := Highlighted(pre, spans[..n]);
    var mid, tail := line[last.start..last.end], line[last.end..];
    if k < n {
      assert spans[..n][k] == spans[k];
      assert spans[k].end <= last.start;
      MatchPlacement(pre, spans[..n], k);
      SliceOfPrefix(line, last.start, spans[k].start, spans[k].end);
      WrappedAtFront(front, Wrap(mid, tail), spans[k].start + 9 * k, line[spans[k].start..spans[k].end]);
    } else {
      WrappedAtWrap(front, mid, tail, spans[k].start + 9 * k);
    }
  }

  lemma SliceOfPrefix(s: string, m: nat, a: nat, b: nat)
    requires a <= b <= m <= |s|
    ensures s[..m][a..b] == s[a..b]
  {
  }

  /** Deletes every start and end marker from `s`, scanning left to right. */
  function Unmark(s: string): string
    decreases |s|
  {
    if s == [] then []
    else if StartColor <= s then Unmark(s[|StartColor|..])
    else if EndColor <= s then Unmark(s[|EndColor|..])
    else [s[0]] + Unmark(s[1..])
  }

  predicate HasNoEscape(s: string) {
    forall i :: 0 <= i < |s| ==> s[i] != Esc
  }

  /** A first character that is not an escape is kept as it is. */
  lemma UnmarkFirst(s: string)
    requires s != [] && s[0] != Esc
    ensures Unmark(s) == [s[0]] + Unmark(s[1..])
  {
    MarkerWidths();
    assert !(StartColor <= s) && !(EndColor <= s);
  }

  lemma Assoc(a: string, b: string, c: string)
    ensures (a + b) + c == a + (b + c)
  {
  }

  /** Text without an escape character passes through `Unmark` untouched. */
  lemma {:induction false} UnmarkPlain(m: string, z: string)
    requires HasNoEscape(m)
    ensures Unmark(m + z) == m + Unmark(z)
    decreases |m|
  {
    if m != [] {
      var s, t := m + z, m[1..];
      assert s[0] == m[0] && s[1..] == t + z;
      UnmarkFirst(s);
      UnmarkPlain(t, z);
      assert m == [m[0]] + t;
      Assoc([m[0]], t, Unmark(z));
    } else {
      assert m + z == z;
    }
  }

  lemma UnmarkMarkers(z: string)
    ensures Unmark(StartColor + z) == Unmark(z)
    ensures Unmark(EndColor + z) == Unmark(z)
  {
    assert StartColor <= StartColor + z;
    assert (StartColor + z)[|StartColor|..] == z;
    assert !(StartColor <= EndColor + z) by {
      assert (EndColor + z)[2] != StartColor[2];
    }
    assert EndColor <= EndColor + z;
    assert (EndColor + z)[|EndColor|..] == z;
  }

  /** One wrapped match followed by plain text loses exactly its markers. */
  lemma UnmarkWrapped(mid: string, tail: string, z: string)
    requires HasNoEscape(mid) && HasNoEscape(tail)
    ensures Unmark(Wrap(mid, tail + z)) == mid + (tail + Unmark(z))
  {
    UnmarkMarkers(mid + (EndColor + (tail + z)));
    UnmarkPlain(mid, EndColor + (tail + z));
    UnmarkMarkers(tail + z);
    UnmarkPlain(tail, z);
  }

  lemma NoEscapeSlices(s: string, a: nat, b: nat)
    requires a <= b <= |s| && HasNoEscape(s)
    ensures HasNoEscape(s[..a]) && HasNoEscape(s[a..b]) && HasNoEscape(s[b..])
  {
  }

  lemma SplitThree(s: string, a: nat, b: nat)
    requires a <= b <= |s|
    ensures s[..a] + (s[a..b] + s[b..]) == s
    ensures s[..a] + s[a..b] + s[b..] == s
  {
    assert s[a..b] + s[b..] == s[a..];
    assert s[..a] + s[a..b] == s[..b];
  }

  lemma Assoc4(a: string, b: string, c: string, d: string)
    ensures a + (b + (c + d)) == (a + (b + c)) + d
  {
  }

  /** Removing the markers from a highlighted line, and from whatever
      follows it, gives back the line followed by the unmarked rest. */
  lemma {:induction false} UnmarkHighlightedThen(line: string, spans: seq<Span>, z: string)
    requires WellFormed(spans, |line|) && HasNoEscape(line)
    ensures Unmark(Highlighted(line, spans) + z) == line + Unmark(z)
    decreases |spans|
  {
    if spans == [] {
      UnmarkPlain(line, z);
    } else {
      var n := |spans| - 1;
      var last := spans[n];
      HighlightedLast(line, spans);
      var mid, tail := line[last.start..last.end], line[last.end..];
      var pre := line[..last.start];
      var front := Highlighted(pre, spans[..n]);
      WrapAppend(mid, tail, z);
      Assoc(front, Wrap(mid, tail), z);
      NoEscapeSlices(line, last.start, last.end);
      UnmarkHighlightedThen(pre, spans[..n], Wrap(mid, tail + z));
      UnmarkWrapped(mid, tail, z);
      Assoc4(pre, mid, tail, Unmark(z));
      SplitThree(line, last.start, last.end);
    }
  }

  /** Round trip: deleting the markers from the spliced line gives back the
      original line, provided the line held no escape character of its own. */
  lemma HighlightedRoundTrip(line: string, spans: seq<Span>)
    requires WellFormed(spans, |line|) && HasNoEscape(line)
    ensures Unmark(Highlighted(line, spans)) == line
  {
    UnmarkHighlightedThen(line, spans, []);
    assert Highlighted(line, spans) + [] == Highlighted(line, spans);
  }

  /** Every span is ordered, and a string of length `len` is long enough
      to hold the spans' text and their marker pairs. */
  predicate PairsFit(spans: seq<Span>, len: nat) {
    forall k :: 0 <= k < |spans| ==> spans[k].start <= spans[k].end && spans[k].end + 9 * (k + 1) <= len
  }

  /** Deletes the marker pair of every span at the place the splice put it
      (start marker at `start + 9k`, end marker at `end + 9k + 5`), last
      span first. */
  function RemovePairs(s: string, spans: seq<Span>): string
    requires Ascending(spans) && PairsFit(spans, |s|)
    decreases |spans|
  {
    if spans == [] then s
    else
      var n := |spans| - 1;
      var s0, e0 := spans[n].start + 9 * n, spans[n].end + 9 * n;
      RemovePairs(s[..s0], spans[..n]) + s[s0 + 5..e0 + 5] + s[e0 + 9..]
  }

  /** Where `front`, the text of the match `m` and the tail sit in
      `front + Wrap(mid, tail)`, when `front` ends at `m.start + offset`. */
  lemma PartsOfWrap(front: string, mid: string, tail: string, m: Span, offset: nat)
    requires m.start + offset == |front| && m.start + |mid| == m.end
    ensures var r, s, e := front + Wrap(mid, tail), m.start + offset, m.end + offset;
      |r| == e + 9 + |tail| &&
      r[..s] == front && r[s + 5..e + 5] == mid && r[e + 9..] == tail
  {
    var r, s := front + Wrap(mid, tail), |front|;
    MarkerWidths();
    ThreeParts(front, StartColor, mid, EndColor, tail);
    assert r[s + 9 + |mid|..] == tail;
  }

  /** `RemovePairs` takes the last pair out of `front + Wrap(mid, tail)`
      and carries on in `front`. */
  lemma RemovePairsWrap(front: string, mid: string, tail: string, spans: seq<Span>)
    requires spans != [] && Ascending(spans)
    requires PairsFit(spans, |front + Wrap(mid, tail)|) && PairsFit(spans[..|spans| - 1], |front|)
    requires Ascending(spans[..|spans| - 1])
    requires spans[|spans| - 1].start + 9 * (|spans| - 1) == |front|
    requires spans[|spans| - 1].start + |mid| == spans[|spans| - 1].end
    ensures var n := |spans| - 1;
      RemovePairs(front + Wrap(mid, tail), spans) == RemovePairs(front, spans[..n]) + mid + tail
  {
    PartsOfWrap(front, mid, tail, spans[|spans| - 1], 9 * (|spans| - 1));
  }

  /** The highlighted line is long enough for every pair that
      `RemovePairs` deletes. */
  lemma RemovePairsBounds(line: string, spans: seq<Span>)
    requires WellFormed(spans, |line|)
    ensures PairsFit(spans, |Highlighted(line, spans)|)
  {
  }

  /** Round trip by position, for any line: removing the pairs where the
      splice put them gives back the original line exactly. */
  lemma {:induction false} RemovePairsRoundTrip(line: string, spans: seq<Span>)
    requires WellFormed(spans, |line|)
    ensures PairsFit(spans, |Highlighted(line, spans)|)
    ensures RemovePairs(Highlighted(line, spans), spans) == line
    decreases |spans|
  {
    RemovePairsBounds(line, spans);
    if spans != [] {
      var n := |spans| - 1;
      var last := spans[n];
      HighlightedLast(line, spans);
      var pre := line[..last.start];
      var front := Highlighted(pre, spans[..n]);
      var mid, tail := line[last.start..last.end], line[last.end..];
      RemovePairsRoundTrip(pre, spans[..n]);
      RemovePairsWrap(front, mid, tail, spans);
      SplitThree(line, last.start, last.end);
    }
  }

  /** The cumulative offset at work: after k splices the working string is
      `Highlighted(line, spans[..k])`; splicing the markers around the
      k-th span's original positions moved right by `9 * k` gives the
      string for the first k + 1 spans. */
  lemma SpliceStep(line: string, spans: seq<Span>, k: nat)
    requires WellFormed(spans, |line|) && k < |spans|
    ensures WellFormed(spans[..k], |line|) && WellFormed(spans[..k + 1], |line|)
    ensures SplicedAt(Highlighted(line, spans[..k]), spans[k], 9 * k, Highlighted(line, spans[..k + 1]))
  {
    var init, sp := spans[..k], spans[..k + 1];
    var s0, e0 := spans[k].start, spans[k].end;
    PrefixesWellFormed(line, spans, k);
    HighlightedCut(line, init, s0);
    HighlightedLast(line, sp);
    var front := Highlighted(line[..s0], init);
    var mid, tail := line[s0..e0], line[e0..];
    SplitTwo(line, s0, e0);
    assert |front| == s0 + 9 * k;
    SpliceAt(Highlighted(line, init), front, mid, tail, Highlighted(line, sp), spans[k], 9 * k);
  }

  /** The spans before `k`, with and without span `k`, are well formed, and
      all of the first `k` end before span `k` starts. */
  lemma PrefixesWellFormed(line: string, spans: seq<Span>, k: nat)
    requires WellFormed(spans, |line|) && k < |spans|
    ensures WellFormed(spans[..k], |line|) && WellFormed(spans[..k + 1], |line|)
    ensures spans[..k + 1][..k] == spans[..k] && spans[..k + 1][k] == spans[k]
    ensures forall j :: 0 <= j < k ==> spans[..k][j].end <= spans[k].start
  {
    assert spans[..k + 1][..k] == spans[..k];
    forall j | 0 <= j < k ensures spans[..k][j].end <= spans[k].start {
      assert spans[j].end <= spans[k].start;
    }
  }

  lemma SplitTwo(s: string, a: nat, b: nat)
    requires a <= b <= |s|
    ensures s[a..] == s[a..b] + s[b..]
  {
  }

  /** `r` is `out` with a start marker inserted at `m.start + offset` and an
      end marker at `m.end + offset`. */
  predicate SplicedAt(out: string, m: Span, offset: nat, r: string) {
    var s, e := m.start + offset, m.end + offset;
    s <= e <= |out| && out[..s] + StartColor + out[s..e] + EndColor + out[e..] == r
  }

  /** Splicing the marker pair around `mid` in `front + mid + tail`. */
  lemma SpliceAt(out: string, front: string, mid: string, tail: string, r: string, m: Span, offset: nat)
    requires out == front + (mid + tail) && r == front + Wrap(mid, tail)
    requires m.start + offset == |front| && m.end + offset == |front| + |mid|
    ensures SplicedAt(out, m, offset, r)
  {
    var s, e := m.start + offset, m.end + offset;
    assert out[..s] == front;
    assert out[s..e] == mid;
    assert out[e..] == tail;
  }
}
