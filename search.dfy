/** The driver of the search tool: choosing a formatter from the command
    line flags, and walking the lines of each file, handing every line with
    at least one match to the formatter. Reading the file and running the
    regular expression are outside the model: a file arrives as its lines
    (terminators included) together with the spans the expression matched
    on each, or as `NotFound`. */
module Search {
  import opened Spans
  import opened Highlight
  import opened Formatters

  datatype Formatter = DefaultFormatter | UnderscoreFormatter | ColorFormatter

  /** `-u` wins over `-c`; with neither flag the default formatter is used. */
  function SelectFormatter(underscore: bool, color: bool): (f: Formatter)
    ensures f == UnderscoreFormatter <==> underscore
    ensures f == ColorFormatter <==> !underscore && color
    ensures f == DefaultFormatter <==> !underscore && !color
  {
    if underscore then UnderscoreFormatter
    else if color then ColorFormatter
    else DefaultFormatter
  }

  /** The strings one call of `format` passes to `print`. */
  function Rendered(f: Formatter, fileName: string, lineNum: nat, line: string, spans: seq<Span>): seq<string>
    requires WellFormed(spans, |line|)
  {
    match f
    case DefaultFormatter => [DefaultFormat(fileName, lineNum, line, spans)]
    case UnderscoreFormatter => [Header(fileName, lineNum), CaretLine(|line|, spans)]
    case ColorFormatter => [ColorLine(fileName, lineNum, line, spans)]
  }

  /** How many `print` calls one call of `format` makes. */
  function LinesPerCall(f: Formatter): nat {
    if f == UnderscoreFormatter then 2 else 1
  }

  /** Every formatter passes `LinesPerCall(f)` strings to `print`, and the first one
      starts with the `file:line` header. */
  lemma RenderedShape(f: Formatter, fileName: string, lineNum: nat, line: string, spans: seq<Span>)
    requires WellFormed(spans, |line|)
    ensures var r, h := Rendered(f, fileName, lineNum, line, spans), Header(fileName, lineNum);
      |r| == LinesPerCall(f) && |h| <= |r[0]| && r[0][..|h|] == h
  {
  }

  /** `formatter.format(...)`: dispatch to the chosen formatter. */
  method Format(f: Formatter, fileName: string, lineNum: nat, line: string, spans: seq<Span>)
    returns (printed: seq<string>)
    requires WellFormed(spans, |line|)
    ensures printed == Rendered(f, fileName, lineNum, line, spans)
  {
    match f
    case DefaultFormatter =>
      printed := [DefaultFormat(fileName, lineNum, line, spans)];
    case UnderscoreFormatter =>
      var header, carets := UnderscoreFormat(fileName, lineNum, line, spans);
      printed := [header, carets];
    case ColorFormatter =>
      var text := ColorFormat(fileName, lineNum, line, spans);
      printed := [text];
  }

  /** One call of `format`: the 1-based line number, the line and its spans. */
  datatype Invocation = Invocation(lineNum: nat, line: string, spans: seq<Span>)

  /** The spans of every line lie inside that line, as `finditer` ensures. */
  predicate Matched(lines: seq<string>, matches: seq<seq<Span>>) {
    |matches| == |lines| &&
    forall i :: 0 <= i < |lines| ==> WellFormed(matches[i], |lines[i]|)
  }

  /** Line `i` (0-based) has at least one match: `if matches:`. */
  predicate HasMatch(matches: seq<seq<Span>>, i: nat)
    requires i < |matches|
  {
    matches[i] != []
  }

  /** The calls of `format` made for the first `n` lines: one per line
      with at least one match, in line order. */
  function Calls(lines: seq<string>, matches: seq<seq<Span>>, n: nat): (r: seq<Invocation>)
    requires Matched(lines, matches) && n <= |lines|
    ensures forall k :: 0 <= k < |r| ==>
      1 <= r[k].lineNum <= n && r[k].spans != [] &&
      r[k].line == lines[r[k].lineNum - 1] && r[k].spans == matches[r[k].lineNum - 1]
    ensures forall j, k :: 0 <= j < k < |r| ==> r[j].lineNum < r[k].lineNum
    ensures forall i :: 0 <= i < n && HasMatch(matches, i) ==>
      exists k :: 0 <= k < |r| && r[k].lineNum == i + 1
  {
    if n == 0 then []
    else
      var r := Calls(lines, matches, n - 1);
      if !HasMatch(matches, n - 1) then r
      else
        var r' := r + [Invocation(n, lines[n - 1], matches[n - 1])];
        assert forall k :: 0 <= k < |r| ==> r'[k] == r[k];
        assert r'[|r|].lineNum == n;
        r'
  }

  /** Every invocation carries spans that lie inside its line. */
  predicate Callable(calls: seq<Invocation>) {
    forall k :: 0 <= k < |calls| ==> WellFormed(calls[k].spans, |calls[k].line|)
  }

  lemma CallsCallable(lines: seq<string>, matches: seq<seq<Span>>, n: nat)
    requires Matched(lines, matches) && n <= |lines|
    ensures Callable(Calls(lines, matches, n))
  {
    var r := Calls(lines, matches, n);
    forall k | 0 <= k < |r| ensures WellFormed(r[k].spans, |r[k].line|) {
      var i := r[k].lineNum - 1;
      assert r[k].spans == matches[i] && r[k].line == lines[i];
    }
  }

  /** What one call prints, as a function of the call. */
  function RenderCall(f: Formatter, fileName: string): Invocation --> seq<string> {
    (c: Invocation) requires WellFormed(c.spans, |c.line|) => Rendered(f, fileName, c.lineNum, c.line, c.spans)
  }

  /** The strings each call prints, call by call. */
  function Renders(f: Formatter, fileName: string, calls: seq<Invocation>): seq<seq<string>>
    requires Callable(calls)
  {
    Map(calls, RenderCall(f, fileName))
  }

  /** What the calls print, one after the other. */
  function Output(f: Formatter, fileName: string, calls: seq<Invocation>): seq<string>
    requires Callable(calls)
  {
    Flatten(Renders(f, fileName, calls))
  }

  /** Every block is `LinesPerCall(f)` strings long. */
  lemma RendersUniform(f: Formatter, fileName: string, calls: seq<Invocation>)
    requires Callable(calls)
    ensures Uniform(Renders(f, fileName, calls), LinesPerCall(f))
  {
    var g := RenderCall(f, fileName);
    MapLength(calls, g);
    var r := Renders(f, fileName, calls);
    forall k | 0 <= k < |r| ensures |r[k]| == LinesPerCall(f) {
      MapAt(calls, g, k);
      RenderedShape(f, fileName, calls[k].lineNum, calls[k].line, calls[k].spans);
    }
  }

  /** The number of strings passed to `print` is the number of calls times
      the strings each call prints. */
  lemma OutputLength(f: Formatter, fileName: string, calls: seq<Invocation>)
    requires Callable(calls)
    ensures |Output(f, fileName, calls)| == LinesPerCall(f) * |calls|
  {
    RendersUniform(f, fileName, calls);
    MapLength(calls, RenderCall(f, fileName));
    FlattenLength(Renders(f, fileName, calls), LinesPerCall(f));
    OffsetIsProduct(LinesPerCall(f), |calls|);
  }

  /** The printed strings are, call by call, what each call renders: call `k`
      prints the `LinesPerCall(f)` strings from `Offset(LinesPerCall(f), k)` on. */
  lemma OutputBlock(f: Formatter, fileName: string, calls: seq<Invocation>, k: nat)
    requires Callable(calls) && k < |calls|
    ensures var w, c := LinesPerCall(f), calls[k];
      Offset(w, k + 1) <= |Output(f, fileName, calls)| &&
      Output(f, fileName, calls)[Offset(w, k)..Offset(w, k + 1)] == Rendered(f, fileName, c.lineNum, c.line, c.spans)
  {
    RendersUniform(f, fileName, calls);
    MapLength(calls, RenderCall(f, fileName));
    MapAt(calls, RenderCall(f, fileName), k);
    FlattenBlock(Renders(f, fileName, calls), LinesPerCall(f), k);
  }

  /** One more call appends what it renders. */
  lemma OutputAppend(f: Formatter, fileName: string, calls: seq<Invocation>, c: Invocation)
    requires Callable(calls) && WellFormed(c.spans, |c.line|)
    ensures Callable(calls + [c])
    ensures Output(f, fileName, calls + [c]) == Output(f, fileName, calls) + Rendered(f, fileName, c.lineNum, c.line, c.spans)
  {
    var b := Renders(f, fileName, calls);
    var x := Rendered(f, fileName, c.lineNum, c.line, c.spans);
    MapSnoc(calls, RenderCall(f, fileName), c);
    FlattenSnoc(b, x);
  }

  /** `g` applied to every element, in order. */
  function Map<A, B>(xs: seq<A>, g: A --> B): seq<B>
    requires forall k :: 0 <= k < |xs| ==> g.requires(xs[k])
  {
    if xs == [] then [] else Map(xs[..|xs| - 1], g) + [g(xs[|xs| - 1])]
  }

  lemma {:induction false} MapLength<A, B>(xs: seq<A>, g: A --> B)
    requires forall k :: 0 <= k < |xs| ==> g.requires(xs[k])
    ensures |Map(xs, g)| == |xs|
  {
    if xs != [] {
      MapLength(xs[..|xs| - 1], g);
    }
  }

  lemma {:induction false} MapAt<A, B>(xs: seq<A>, g: A --> B, k: nat)
    requires forall k :: 0 <= k < |xs| ==> g.requires(xs[k])
    requires k < |xs|
    ensures k < |Map(xs, g)| && Map(xs, g)[k] == g(xs[k])
  {
    var n := |xs| - 1;
    MapLength(xs[..n], g);
    if k < n {
      MapAt(xs[..n], g, k);
    }
  }

  lemma MapSnoc<A, B>(xs: seq<A>, g: A --> B, x: A)
    requires forall k :: 0 <= k < |xs| ==> g.requires(xs[k])
    requires g.requires(x)
    ensures Map(xs + [x], g) == Map(xs, g) + [g(x)]
  {
    assert (xs + [x])[..|xs|] == xs;
  }

  /** The concatenation of a sequence of blocks. */
  function Flatten<T>(blocks: seq<seq<T>>): seq<T> {
    if blocks == [] then [] else Flatten(blocks[..|blocks| - 1]) + blocks[|blocks| - 1]
  }

  /** Every block is `w` long. */
  predicate Uniform<T>(blocks: seq<seq<T>>, w: nat) {
    forall k :: 0 <= k < |blocks| ==> |blocks[k]| == w
  }

  /** `k` blocks of width `w` take `Offset(w, k)` places. */
  function Offset(w: nat, k: nat): nat {
    if k == 0 then 0 else Offset(w, k - 1) + w
  }

  lemma {:induction false} OffsetIsProduct(w: nat, k: nat)
    ensures Offset(w, k) == w * k
  {
    if k > 0 {
      OffsetIsProduct(w, k - 1);
      assert w * k == w * (k - 1) + w;
    }
  }

  lemma FlattenSnoc<T>(blocks: seq<seq<T>>, b: seq<T>)
    ensures Flatten(blocks + [b]) == Flatten(blocks) + b
  {
    assert (blocks + [b])[..|blocks|] == blocks;
  }

  lemma {:induction false} FlattenLength<T>(blocks: seq<seq<T>>, w: nat)
    requires Uniform(blocks, w)
    ensures |Flatten(blocks)| == Offset(w, |blocks|)
  {
    if blocks != [] {
      FlattenLength(blocks[..|blocks| - 1], w);
    }
  }

  /** Block `k` sits at `Offset(w, k)` in the concatenation. */
  lemma {:induction false} FlattenBlock<T>(blocks: seq<seq<T>>, w: nat, k: nat)
    requires Uniform(blocks, w) && k < |blocks|
    ensures Offset(w, k + 1) <= |Flatten(blocks)|
    ensures Flatten(blocks)[Offset(w, k)..Offset(w, k + 1)] == blocks[k]
  {
    var n := |blocks| - 1;
    if k < n {
      var init := blocks[..n];
      var o := Flatten(init);
      assert Flatten(blocks) == o + blocks[n];
      assert init[k] == blocks[k];
      assert o[Offset(w, k)..Offset(w, k + 1)] == blocks[k] && Offset(w, k + 1) <= |o| by {
        FlattenBlock(init, w, k);
      }
      SliceOfFront(o, blocks[n], Offset(w, k), Offset(w, k + 1));
    } else {
      FlattenLast(blocks, w);
    }
  }

  /** The last block ends the concatenation. */
  lemma FlattenLast<T>(blocks: seq<seq<T>>, w: nat)
    requires Uniform(blocks, w) && blocks != []
    ensures var n := |blocks| - 1;
      Offset(w, n + 1) <= |Flatten(blocks)| &&
      Flatten(blocks)[Offset(w, n)..Offset(w, n + 1)] == blocks[n]
  {
    var n := |blocks| - 1;
    var o := Flatten(blocks[..n]);
    FlattenLength(blocks[..n], w);
    assert Flatten(blocks) == o + blocks[n];
    SliceOfBack(o, blocks[n], Offset(w, n), Offset(w, n + 1));
    assert blocks[n][0..|blocks[n]|] == blocks[n];
  }

  /** What reading a file yields: the file is missing, or it holds these
      lines, on which the expression matched these spans. */
  datatype Source = NotFound | Found(lines: seq<string>, matches: seq<seq<Span>>)

  predicate ValidSource(src: Source) {
    src.Found? ==> Matched(src.lines, src.matches)
  }

  /** The message printed for a file that cannot be opened. */
  function NotFoundMessage(fileName: string): string {
    "Error: File '" + fileName + "' not found."
  }

  /** What `search_in_file` prints for one file. */
  function FileOutput(f: Formatter, fileName: string, src: Source): seq<string>
    requires ValidSource(src)
  {
    match src
    case NotFound => [NotFoundMessage(fileName)]
    case Found(lines, matches) =>
      CallsCallable(lines, matches, |lines|);
      Output(f, fileName, Calls(lines, matches, |lines|))
  }

  /** `search_in_file`: number the lines from 1 and format every line on
      which the expression matched at least once. */
  method SearchInFile(f: Formatter, fileName: string, src: Source) returns (out: seq<string>)
    requires ValidSource(src)
    ensures out == FileOutput(f, fileName, src)
  {
    if src.NotFound? {
      return [NotFoundMessage(fileName)];
    }
    var lines, matches := src.lines, src.matches;
    out := [];
    for i := 0 to |lines|
      invariant Callable(Calls(lines, matches, i))
      invariant out == Output(f, fileName, Calls(lines, matches, i))
    {
      CallsStep(f, fileName, lines, matches, i);
      var printed := SearchLine(f, fileName, i + 1, lines[i], matches[i]);
      out := out + printed;
    }
  }

  /** One pass of the loop in `search_in_file`: a line with at least one
      match is handed to the formatter, any other line prints nothing. */
  method SearchLine(f: Formatter, fileName: string, lineNum: nat, line: string, spans: seq<Span>)
    returns (printed: seq<string>)
    requires WellFormed(spans, |line|)
    ensures spans == [] ==> printed == []
    ensures spans != [] ==> printed == Rendered(f, fileName, lineNum, line, spans)
  {
    printed := [];
    if spans != [] {
      printed := Format(f, fileName, lineNum, line, spans);
    }
  }

  /** One more line adds one call exactly when it has a match. */
  lemma CallsNext(lines: seq<string>, matches: seq<seq<Span>>, i: nat)
    requires Matched(lines, matches) && i < |lines|
    ensures Calls(lines, matches, i + 1) ==
      if matches[i] == [] then Calls(lines, matches, i)
      else Calls(lines, matches, i) + [Invocation(i + 1, lines[i], matches[i])]
  {
  }

  /** The loop step of `search_in_file`: line `i` prints what `format`
      renders for it when it has a match, and nothing otherwise. */
  lemma CallsStep(f: Formatter, fileName: string, lines: seq<string>, matches: seq<seq<Span>>, i: nat)
    requires Matched(lines, matches) && i < |lines|
    requires Callable(Calls(lines, matches, i))
    ensures Callable(Calls(lines, matches, i + 1))
    ensures Output(f, fileName, Calls(lines, matches, i + 1)) ==
      Output(f, fileName, Calls(lines, matches, i)) +
      if matches[i] == [] then [] else Rendered(f, fileName, i + 1, lines[i], matches[i])
  {
    CallsNext(lines, matches, i);
    if matches[i] != [] {
      OutputAppend(f, fileName, Calls(lines, matches, i), Invocation(i + 1, lines[i], matches[i]));
    }
  }

  /** A file on which the expression never matches prints nothing. */
  lemma {:induction false} NoMatchNoOutput(lines: seq<string>, matches: seq<seq<Span>>, n: nat)
    requires Matched(lines, matches) && n <= |lines|
    requires forall i :: 0 <= i < n ==> matches[i] == []
    ensures Calls(lines, matches, n) == []
  {
    if n > 0 {
      NoMatchNoOutput(lines, matches, n - 1);
    }
  }

  /** Line `i` (0-based) with a match is formatted: its call is the one
      numbered `i + 1`, and it prints the strings that `Rendered` gives
      for it. */
  lemma LineFormatted(f: Formatter, fileName: string, lines: seq<string>, matches: seq<seq<Span>>, i: nat)
    requires Matched(lines, matches) && i < |lines| && HasMatch(matches, i)
    ensures var calls := Calls(lines, matches, |lines|);
      Callable(calls) &&
      exists k :: 0 <= k < |calls| && calls[k] == Invocation(i + 1, lines[i], matches[i]) &&
        Offset(LinesPerCall(f), k + 1) <= |Output(f, fileName, calls)| &&
        Output(f, fileName, calls)[Offset(LinesPerCall(f), k)..Offset(LinesPerCall(f), k + 1)] ==
          Rendered(f, fileName, i + 1, lines[i], matches[i])
  {
    var calls := Calls(lines, matches, |lines|);
    CallsCallable(lines, matches, |lines|);
    var k := CallOfLine(lines, matches, i);
    OutputBlock(f, fileName, calls, k);
  }

  /** The call that line `i` (0-based) with a match gives rise to. */
  lemma CallOfLine(lines: seq<string>, matches: seq<seq<Span>>, i: nat) returns (k: nat)
    requires Matched(lines, matches) && i < |lines| && HasMatch(matches, i)
    ensures k < |Calls(lines, matches, |lines|)|
    ensures Calls(lines, matches, |lines|)[k] == Invocation(i + 1, lines[i], matches[i])
  {
    var calls := Calls(lines, matches, |lines|);
    k :| 0 <= k < |calls| && calls[k].lineNum == i + 1;
  }

  /** The whole run: every named file in turn. */
  function RunOutput(f: Formatter, files: seq<(string, Source)>): seq<string>
    requires forall k :: 0 <= k < |files| ==> ValidSource(files[k].1)
  {
    if files == [] then []
    else
      var n := |files| - 1;
      RunOutput(f, files[..n]) + FileOutput(f, files[n].0, files[n].1)
  }

  /** `main` after argument parsing: select the formatter, then search each
      file in the order given. */
  method Run(underscore: bool, color: bool, files: seq<(string, Source)>) returns (out: seq<string>)
    requires forall k :: 0 <= k < |files| ==> ValidSource(files[k].1)
    ensures out == RunOutput(SelectFormatter(underscore, color), files)
  {
    var formatter := SelectFormatter(underscore, color);
    out := [];
    for k := 0 to |files|
      invariant out == RunOutput(formatter, files[..k])
    {
      var printed := SearchInFile(formatter, files[k].0, files[k].1);
      assert files[..k + 1][..k] == files[..k];
      out := out + printed;
    }
    assert files[..|files|] == files;
  }
}
