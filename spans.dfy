/** The match spans the regular-expression engine hands to the formatters:
    one `[start, end)` pair per match, in the coordinates of the original
    line (`m.start()` and `m.end()` of each `re.Match` that `finditer`
    yields). */
module Spans {

  datatype Span = Span(start: nat, end: nat)

  /** Every span lies inside a line of length `len`. */
  predicate InBounds(spans: seq<Span>, len: nat) {
    forall k :: 0 <= k < |spans| ==> spans[k].start <= spans[k].end <= len
  }

  /** Spans are ascending and do not overlap (an empty match may touch the
      end of the one before it). */
  predicate Ascending(spans: seq<Span>) {
    forall j, k :: 0 <= j < k < |spans| ==> spans[j].end <= spans[k].start
  }

  /** What `re.finditer` guarantees about the spans of one line. */
  predicate WellFormed(spans: seq<Span>, len: nat) {
    InBounds(spans, len) && Ascending(spans)
  }

  /** Index `i` of the line lies inside some match. */
  predicate Covered(spans: seq<Span>, i: int) {
    exists k :: 0 <= k < |spans| && spans[k].start <= i < spans[k].end
  }
}
