/** The three output formatters of the search tool. Each takes the file
    name, the 1-based line number, the raw line as the file iterator yields
    it (line terminator included) and the line's match spans, and returns
    the text it would print, one string per call of `print`. */
module Formatters {
  import opened PyStr
  import opened Spans
  import opened Highlight

  /** `f"{file_name}:{line_num}"` */
  function Header(fileName: string, lineNum: nat): string {
    fileName + ":" + DecimalString(lineNum)
  }

  /** The header reads back: the file name, one colon, then the decimal
      line number, and nothing after it (it ends in a digit, so no
      trailing colon). */
  lemma HeaderLayout(fileName: string, lineNum: nat)
    ensures var h, d := Header(fileName, lineNum), DecimalString(lineNum);
      |h| == |fileName| + 1 + |d| &&
      h[..|fileName|] == fileName && h[|fileName|] == ':' &&
      h[|fileName| + 1..] == d && ParseDecimal(h[|fileName| + 1..]) == lineNum &&
      IsDigit(h[|h| - 1])
  {
    var h, d := Header(fileName, lineNum), DecimalString(lineNum);
    assert h[|fileName| + 1..] == d;
    DecimalRoundTrip(lineNum);
  }

  /** The header holds no escape character when the file name holds none. */
  lemma HeaderHasNoEscape(fileName: string, lineNum: nat)
    requires HasNoEscape(fileName)
    ensures HasNoEscape(Header(fileName, lineNum) + ":")
  {
    var d := DecimalString(lineNum);
    assert forall i :: 0 <= i < |d| ==> IsDigit(d[i]);
  }

  /** DefaultFormatter: `f"{file_name}:{line_num}:{line.strip()}"`. */
  function DefaultFormat(fileName: string, lineNum: nat, line: string, spans: seq<Span>): string {
    Header(fileName, lineNum) + ":" + Strip(line)
  }

  /** The default output is the header, a colon and the stripped line, and
      the spans play no part in it: two span lists give the same output. */
  lemma DefaultLayout(fileName: string, lineNum: nat, line: string, spans: seq<Span>, others: seq<Span>)
    ensures var r, h := DefaultFormat(fileName, lineNum, line, spans), Header(fileName, lineNum);
      |r| == |h| + 1 + |Strip(line)| &&
      r[..|h|] == h && r[|h|] == ':' && r[|h| + 1..] == Strip(line) &&
      Strip(r[|h| + 1..]) == r[|h| + 1..] &&
      r == DefaultFormat(fileName, lineNum, line, others)
  {
    var r, h := DefaultFormat(fileName, lineNum, line, spans), Header(fileName, lineNum);
    assert r[|h| + 1..] == Strip(line);
    StripIdempotent(line);
  }

  /** The caret line: one character per character of the raw line, `^`
      under every matched position and a space elsewhere. */
  function CaretLine(len: nat, spans: seq<Span>): string {
    seq(len, i => if Covered(spans, i) then '^' else ' ')
  }

  /** UnderscoreFormatter: prints the header (no colon after the number,
      no line text), then a caret line built in a buffer of `len(line)`
      spaces in which every index of every span is overwritten by `^`. */
  method UnderscoreFormat(fileName: string, lineNum: nat, line: string, spans: seq<Span>)
    returns (header: string, carets: string)
    requires InBounds(spans, |line|)
    ensures header == Header(fileName, lineNum)
    ensures |carets| == |line|
    ensures forall i :: 0 <= i < |carets| ==> (carets[i] == '^' <==> Covered(spans, i))
    ensures forall i :: 0 <= i < |carets| ==> (carets[i] == ' ' <==> !Covered(spans, i))
    ensures carets == CaretLine(|line|, spans)
  {
    header := Header(fileName, lineNum);
    var underline := new char[|line|](_ => ' ');
    for k := 0 to |spans|
      invariant forall i :: 0 <= i < underline.Length ==>
        underline[i] == if Covered(spans[..k], i) then '^' else ' '
    {
      for i := spans[k].start to spans[k].end
        invariant forall p :: 0 <= p < underline.Length ==>
          underline[p] == if Covered(spans[..k], p) || spans[k].start <= p < i then '^' else ' '
      {
        underline[i] := '^';
      }
      forall p | 0 <= p < underline.Length
        ensures Covered(spans[..k + 1], p) == (Covered(spans[..k], p) || spans[k].start <= p < spans[k].end)
      {
        CoveredSnoc(spans, k, p);
      }
    }
    assert spans[..|spans|] == spans;
    carets := underline[..];
  }

  lemma CoveredSnoc(spans: seq<Span>, k: nat, p: int)
    requires k < |spans|
    ensures Covered(spans[..k + 1], p) == (Covered(spans[..k], p) || spans[k].start <= p < spans[k].end)
  {
    if Covered(spans[..k + 1], p) {
      var j :| 0 <= j < k + 1 && spans[..k + 1][j].start <= p < spans[..k + 1][j].end;
      if j < k {
        assert spans[..k][j] == spans[j];
      }
    }
    if Covered(spans[..k], p) {
      var j :| 0 <= j < k && spans[..k][j].start <= p < spans[..k][j].end;
      assert spans[..k + 1][j] == spans[j];
    }
    if spans[k].start <= p < spans[k].end {
      assert spans[..k + 1][k] == spans[k];
    }
  }

  /** What ColorFormatter prints: the header, a colon, and the spliced line
      stripped of surrounding whitespace. */
  function ColorLine(fileName: string, lineNum: nat, line: string, spans: seq<Span>): string
    requires WellFormed(spans, |line|)
  {
    Header(fileName, lineNum) + ":" + Strip(Highlighted(line, spans))
  }

  /** ColorFormatter: splices a start and an end marker around every match,
      keeping a running `offset` of the characters inserted so far, then
      strips the result and prefixes the header. */
  method ColorFormat(fileName: string, lineNum: nat, line: string, spans: seq<Span>)
    returns (printed: string)
    requires WellFormed(spans, |line|)
    ensures printed == ColorLine(fileName, lineNum, line, spans)
  {
    var output := line;
    var offset := 0;
    for k := 0 to |spans|
      invariant WellFormed(spans[..k], |line|)
      invariant offset == 9 * k
      invariant output == Highlighted(line, spans[..k])
    {
      SpliceStep(line, spans, k);
      assert SplicedAt(output, spans[k], offset, Highlighted(line, spans[..k + 1]));
      var start := spans[k].start + offset;
      var end := spans[k].end + offset;
      output := output[..start] + StartColor + output[start..end] + EndColor + output[end..];
      offset := offset + |StartColor| + |EndColor|;
    }
    assert spans[..|spans|] == spans;
    printed := Header(fileName, lineNum) + ":" + Strip(output);
  }

  /** When no match starts before `lo`, the highlighting holds a
      non-space at `lo`: either the first start marker or the line's own
      character, when that is not whitespace. */
  lemma FirstNotSpace(t: string, spans: seq<Span>, lo: nat)
    requires WellFormed(spans, |t|)
    requires forall k :: 0 <= k < |spans| ==> lo <= spans[k].start
    requires (spans != [] && spans[0].start == lo) || (lo < |t| && !IsSpace(t[lo]))
    ensures lo < |Highlighted(t, spans)| && !IsSpace(Highlighted(t, spans)[lo])
    ensures spans != [] && spans[0].start == lo ==> Highlighted(t, spans)[lo] == Esc
    ensures !(spans != [] && spans[0].start == lo) ==> Highlighted(t, spans)[lo] == t[lo]
  {
    var h := Highlighted(t, spans);
    if spans != [] && spans[0].start == lo {
      MatchPlacement(t, spans, 0);
      WrappedAtEnds(h, spans[0].start + 9 * 0, t[spans[0].start..spans[0].end]);
      assert h[lo] == Esc;
    } else {
      StartsAfter(spans, lo);
      HighlightedPrefix(t, spans, lo + 1);
      assert h[lo] == h[..lo + 1][lo];
    }
  }

  /** When no match starts before `lo` and the first does not start at
      `lo`, none starts before `lo + 1`. */
  lemma StartsAfter(spans: seq<Span>, lo: nat)
    requires Ascending(spans) && forall k :: 0 <= k < |spans| ==> spans[k].start <= spans[k].end
    requires forall k :: 0 <= k < |spans| ==> lo <= spans[k].start
    requires spans != [] ==> spans[0].start != lo
    ensures forall k :: 0 <= k < |spans| ==> lo + 1 <= spans[k].start
  {
    forall k | 0 <= k < |spans| ensures lo + 1 <= spans[k].start {
      if k > 0 {
        assert spans[0].end <= spans[k].start;
      }
    }
  }

  /** The highlighting ends in a non-space: either the last end marker, when
      the last match reaches the end of the line, or the line's own last
      character, when that is not whitespace. */
  lemma LastNotSpace(t: string, spans: seq<Span>)
    requires WellFormed(spans, |t|)
    requires (spans != [] && spans[|spans| - 1].end == |t|) || (|t| > 0 && !IsSpace(t[|t| - 1]))
    ensures |Highlighted(t, spans)| > 0
    ensures !IsSpace(Highlighted(t, spans)[|Highlighted(t, spans)| - 1])
    ensures spans != [] && spans[|spans| - 1].end == |t| ==>
      Highlighted(t, spans)[|Highlighted(t, spans)| - 1] == 'm'
    ensures !(spans != [] && spans[|spans| - 1].end == |t|) ==>
      Highlighted(t, spans)[|Highlighted(t, spans)| - 1] == t[|t| - 1]
  {
    if spans != [] && spans[|spans| - 1].end == |t| {
      EndsWithMarker(t, spans);
    } else {
      EndsWithOwn(t, spans);
    }
  }

  /** A last match that reaches the end of the line puts an end marker, and
      so an `m`, last. */
  lemma EndsWithMarker(t: string, spans: seq<Span>)
    requires WellFormed(spans, |t|) && spans != [] && spans[|spans| - 1].end == |t|
    ensures |Highlighted(t, spans)| > 0
    ensures Highlighted(t, spans)[|Highlighted(t, spans)| - 1] == 'm'
  {
    var n := |spans| - 1;
    MatchPlacement(t, spans, n);
    WrappedAtEnds(Highlighted(t, spans), spans[n].start + 9 * n, t[spans[n].start..spans[n].end]);
  }

  /** Otherwise the line's own last character comes last. */
  lemma EndsWithOwn(t: string, spans: seq<Span>)
    requires WellFormed(spans, |t|) && |t| > 0
    requires spans != [] ==> spans[|spans| - 1].end != |t|
    ensures |Highlighted(t, spans)| > 0
    ensures Highlighted(t, spans)[|Highlighted(t, spans)| - 1] == t[|t| - 1]
  {
    var h := Highlighted(t, spans);
    var n := |spans| - 1;
    forall k | 0 <= k < |spans| ensures spans[k].end <= |t| - 1 {
      if k < n {
        assert spans[k].end <= spans[n].start;
      }
    }
    HighlightedCut(t, spans, |t| - 1);
    assert h[|h| - 1] == t[|t| - 1];
  }

  /** When every span lies inside the stripped part `lo..hi` of the line,
      the highlighting of `line[..hi]` keeps `line[..lo]` in front and the
      part after it neither starts nor ends with whitespace. */
  lemma CoreTrimmed(line: string, spans: seq<Span>, lo: nat, hi: nat)
    requires IsStripWindow(line, lo, hi) && WellFormed(spans, |line|)
    requires forall k :: 0 <= k < |spans| ==> lo <= spans[k].start && spans[k].end <= hi
    ensures WellFormed(spans, hi)
    ensures var h := Highlighted(line[..hi], spans);
      lo <= |h| && h[..lo] == line[..lo] &&
      (h[lo..] == [] || (!IsSpace(h[lo..][0]) && !IsSpace(h[lo..][|h[lo..]| - 1])))
  {
    var t := line[..hi];
    assert WellFormed(spans, hi);
    HighlightedPrefix(t, spans, lo);
    assert t[..lo] == line[..lo];
    if lo < hi || spans != [] {
      FirstNotSpace(t, spans, lo);
      LastNotSpace(t, spans);
    }
  }

  /** With every span inside the stripped part `lo..hi`, stripping the
      highlighted line removes exactly the line's own leading and trailing
      whitespace. */
  lemma StripHighlighted(line: string, spans: seq<Span>, lo: nat, hi: nat)
    requires IsStripWindow(line, lo, hi) && WellFormed(spans, |line|)
    requires forall k :: 0 <= k < |spans| ==> lo <= spans[k].start && spans[k].end <= hi
    ensures WellFormed(spans, hi)
    ensures var h := Highlighted(line[..hi], spans);
      lo <= |h| && h == line[..lo] + h[lo..] && Strip(Highlighted(line, spans)) == h[lo..]
  {
    CoreTrimmed(line, spans, lo, hi);
    HighlightedCut(line, spans, hi);
    StripAroundCore(line, Highlighted(line[..hi], spans), lo, hi);
  }

  /** A string that agrees with `line` on its leading whitespace `..lo` and
      has no whitespace at either end of the rest, followed by the line's
      trailing whitespace `hi..`, strips to that rest. */
  lemma StripAroundCore(line: string, h: string, lo: nat, hi: nat)
    requires IsStripWindow(line, lo, hi) && lo <= |h| && h[..lo] == line[..lo]
    requires h[lo..] == [] || (!IsSpace(h[lo..][0]) && !IsSpace(h[lo..][|h[lo..]| - 1]))
    ensures h == line[..lo] + h[lo..] && Strip(h + line[hi..]) == h[lo..]
  {
    var p, x, q := line[..lo], h[lo..], line[hi..];
    assert h == p + x by {
      assert h == h[..lo] + x;
    }
    assert forall i :: 0 <= i < |p| ==> IsSpace(p[i]);
    forall i | 0 <= i < |q| ensures IsSpace(q[i]) {
      assert q[i] == line[hi + i];
    }
    StripPadded(p, x, q);
  }

  /** Left cancellation for concatenation. */
  lemma CancelFront(a: string, b: string, c: string)
    requires a + b == a + c
    ensures b == c
  {
    assert b == (a + b)[|a|..];
    assert c == (a + c)[|a|..];
  }

  /** Deleting the markers from the stripped, highlighted part gives back
      the stripped part of the line. */
  lemma UnmarkCore(line: string, spans: seq<Span>, lo: nat, hi: nat)
    requires IsStripWindow(line, lo, hi) && WellFormed(spans, |line|) && HasNoEscape(line)
    requires forall k :: 0 <= k < |spans| ==> lo <= spans[k].start && spans[k].end <= hi
    ensures WellFormed(spans, hi)
    ensures var h := Highlighted(line[..hi], spans);
      lo <= |h| && Unmark(h[lo..]) == line[lo..hi]
  {
    StripHighlighted(line, spans, lo, hi);
    var t := line[..hi];
    var h := Highlighted(t, spans);
    NoEscapeSlices(line, lo, hi);
    NoEscapeSlices(line, hi, hi);
    HighlightedRoundTrip(t, spans);
    UnmarkPlain(line[..lo], h[lo..]);
    assert t == line[..lo] + line[lo..hi];
    CancelFront(line[..lo], Unmark(h[lo..]), line[lo..hi]);
  }

  /** Deleting the colour markers from ColorFormatter's output gives
      DefaultFormatter's output, provided neither the file name nor the line
      holds an escape character and every match lies inside the part of the
      line that `strip` keeps. (A match on leading or trailing whitespace is
      kept, markers and all; see `MatchedNewlineSurvives`.) */
  lemma ColorUnmarksToDefault(fileName: string, lineNum: nat, line: string, spans: seq<Span>)
    requires WellFormed(spans, |line|) && HasNoEscape(line) && HasNoEscape(fileName)
    requires forall k :: 0 <= k < |spans| ==>
      LeadingSpaces(line) <= spans[k].start && spans[k].end <= LeadingSpaces(line) + |Strip(line)|
    ensures Unmark(ColorLine(fileName, lineNum, line, spans)) == DefaultFormat(fileName, lineNum, line, spans)
  {
    var lo := LeadingSpaces(line);
    var hi := lo + |Strip(line)|;
    StripHighlighted(line, spans, lo, hi);
    UnmarkCore(line, spans, lo, hi);
    HeaderHasNoEscape(fileName, lineNum);
    UnmarkPlain(Header(fileName, lineNum) + ":", Strip(Highlighted(line, spans)));
  }

  /** A match on the line terminator survives the strip: for the line
      "a\n" with the single match `[1, 2)` (the pattern `\n`), the colour
      output keeps the newline between its markers, so deleting the markers
      gives back a line that still ends in the newline that the default
      output strips. */
  lemma MatchedNewlineSurvives(fileName: string, lineNum: nat)
    requires HasNoEscape(fileName)
    ensures var pre := Header(fileName, lineNum) + ":";
      Unmark(ColorLine(fileName, lineNum, "a\n", [Span(1, 2)])) == pre + "a\n" &&
      DefaultFormat(fileName, lineNum, "a\n", [Span(1, 2)]) == pre + "a"
  {
    var line, spans := "a\n", [Span(1, 2)];
    var pre := Header(fileName, lineNum) + ":";
    StripKeepsHighlighted(line, spans);
    StripLineFeed("a");
    HeaderHasNoEscape(fileName, lineNum);
    HighlightedRoundTrip(line, spans);
    UnmarkPlain(pre, Highlighted(line, spans));
  }

  /** Stripping leaves the highlighting whole when its first and last
      characters are markers or non-space characters of the line. */
  lemma StripKeepsHighlighted(t: string, spans: seq<Span>)
    requires WellFormed(spans, |t|)
    requires (spans != [] && spans[0].start == 0) || (0 < |t| && !IsSpace(t[0]))
    requires (spans != [] && spans[|spans| - 1].end == |t|) || (|t| > 0 && !IsSpace(t[|t| - 1]))
    ensures Strip(Highlighted(t, spans)) == Highlighted(t, spans)
  {
    var h := Highlighted(t, spans);
    FirstNotSpace(t, spans, 0);
    LastNotSpace(t, spans);
    StripPadded([], h, []);
    assert [] + h + [] == h;
  }

  /** A trimmed text followed by a line feed strips to itself. */
  lemma StripLineFeed(t: string)
    requires t == [] || (!IsSpace(t[0]) && !IsSpace(t[|t| - 1]))
    ensures Strip(t + "\n") == t
  {
    StripPadded([], t, "\n");
    assert [] + t + "\n" == t + "\n";
  }
}
