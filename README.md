# Match rendering of a grep-like search tool

This project models how a small command-line search tool (`main.py`)
prints the lines on which a regular expression matches. For every line
with at least one match, one of three formatters prints that line:

- **DefaultFormatter** prints `file:line:` followed by the line with
  surrounding whitespace stripped.
- **UnderscoreFormatter** prints a `file:line` header. On the next line it
  prints a caret line as long as the raw line, with `^` under every matched
  character.
- **ColorFormatter** wraps every match in the ANSI markers `ESC[31m` and
  `ESC[0m`, then strips the result and puts `file:line:` in front of it.

The command line flags choose the formatter: `-u` wins over `-c`, and with
neither the default formatter is used. Each named file is then searched
line by line, with line numbers starting at 1.

The model has five modules:

- `PyStr` models Python's `str.strip()` and `str(n)`.
- `Spans` models the match spans `[start, end)` that `re.finditer`
  produces.
- `Highlight` models the colour splicing and its inverses.
- `Formatters` models the three formatters. The underscore formatter is a
  method that fills an array buffer. The colour formatter is a method whose
  loop keeps the running `offset`.
- `Search` models formatter selection, dispatch, the per-line match gate
  and the loop over files.

Each formatter returns the strings it would pass to `print`, one per `print` call, instead of printing them.

Two behaviours of the code are easy to misread:

- **Underscore header and carets.** The underscore formatter prints only
  `file:line`, without the line's text. Its caret line is aligned with the
  raw, unstripped line, terminator included, so it is `len(line)`
  characters long.
- **Colour markers and `strip`.** Deleting the colour markers from the
  colour output gives back the default output when every match lies
  inside the part of the line that `strip` keeps, and neither the file
  name nor the line holds an escape character (`ColorUnmarksToDefault`).
  A non-empty match on whitespace outside that part breaks it: the
  markers around that whitespace stop `strip` from reaching it, so the
  colour output keeps it. For example, the
  pattern `\n` on the line `"a\n"` prints the newline between its markers
  (`MatchedNewlineSurvives`).

## Model

| member | source | states |
|---|---|---|
| PyStr.LeadingSpaces | main.py:63 | the count is a prefix of whitespace characters that is followed by a non-space or by the end of the string |
| PyStr.Strip | main.py:63 | `strip()` keeps a window of the string: everything before and after it is whitespace, and the window starts and ends with a non-space |
| PyStr.StripUnique | main.py:63 | any window meeting the definition of a stripping is exactly what `Strip` returns |
| PyStr.StripIdempotent | main.py:63 | stripping twice is stripping once |
| PyStr.StripPadded | main.py:77 | whitespace added around an already stripped string is removed again, and nothing else is |
| PyStr.DecimalString | main.py:54 | `str(n)` is a non-empty string of digits with no leading zero except for `0` itself |
| PyStr.DecimalRoundTrip | main.py:54 | reading the decimal digits back gives the line number |
| Formatters.HeaderLayout | main.py:54 | the header is the file name, one colon, then the line number's digits (which read back to the number), and it ends in a digit, so there is no trailing colon |
| Formatters.DefaultLayout | main.py:63 | the default output is header, colon and stripped line; its text part is already stripped; two different span lists give the same output |
| Formatters.UnderscoreFormat | main.py:53-59 | the header is `file:line`; the caret line has `len(line)` characters, newline included; index `i` holds `^` iff some span covers it, and a space iff none does |
| Highlight.Highlighted | main.py:70-76 | after splicing `n` matches the string is `len(line) + 9*n` characters long |
| Highlight.SpliceStep | main.py:73-76 | inserting the start marker at `start + 9k` and the end marker at `end + 9k` turns the highlighting of the first `k` matches into that of the first `k + 1` |
| Formatters.ColorFormat | main.py:67-77 | the string printed is the header, a colon and the stripped highlighting of every match; the loop keeps `offset == 9*k` and the output equal to the highlighting of the first `k` matches |
| Highlight.HighlightedCut | main.py:75 | text after the last match is copied unchanged to the end of the spliced string |
| Highlight.HighlightedPrefix | main.py:75 | text before the first match is copied unchanged to the front of the spliced string |
| Highlight.MatchPlacement | main.py:73-75 | match `k`'s text `line[s:e]` sits at `s + 9k + 5` in the spliced string, right after a start marker at `s + 9k` and right before an end marker |
| Highlight.UnmarkPlain | main.py:77 | deleting the markers leaves text without escape characters unchanged |
| Highlight.UnmarkHighlightedThen | main.py:70-76 | when the line holds no escape character, deleting the markers from the spliced line, followed by any text, gives back the line, followed by that text with its own markers deleted |
| Highlight.HighlightedRoundTrip | main.py:70-76 | deleting every marker from the spliced string gives back the original line, when the line holds no escape character |
| Highlight.RemovePairsRoundTrip | main.py:70-76 | deleting the nine characters inserted around each match, by position, gives back the original line exactly, for any line |
| Formatters.FirstNotSpace | main.py:77 | at the first position no match starts before, the spliced string is not whitespace: it holds the escape that opens a start marker when a match starts there, and the line's own non-space character otherwise |
| Formatters.LastNotSpace | main.py:77 | the spliced string does not end in whitespace: it ends in the `m` of an end marker when the last match reaches the end of the line, and in the line's own non-space last character otherwise |
| Formatters.StripHighlighted | main.py:77 | with every match inside the stripped part, stripping the spliced line removes exactly the line's own leading and trailing whitespace |
| Formatters.UnmarkCore | main.py:70-77 | when the line holds no escape character and every match lies inside the stripped part, deleting the markers from what the colour formatter keeps gives back the stripped line |
| Formatters.ColorUnmarksToDefault | main.py:63-77 | with every match inside the stripped part and no escape characters in the file name or line, deleting the markers from the colour output gives the default output |
| Formatters.MatchedNewlineSurvives | main.py:77 | for `"a\n"` with a match on the newline, the colour output minus its markers still ends in the newline that the default output strips |
| Search.SelectFormatter | main.py:20-25 | Underscore iff `-u`; Color iff `-c` without `-u`; Default iff neither; so exactly one formatter is chosen |
| Search.RenderedShape | main.py:53-77 | the underscore formatter makes two `print` calls and the others one, and the first string printed starts with the `file:line` header |
| Search.Format | main.py:40 | dispatching to the chosen formatter's method prints what that formatter renders |
| Search.Calls | main.py:37-40 | `format` is called once for every line with a match and for no other line, in line order, with the 1-based line number, that line and its spans |
| Search.CallsStep | main.py:37-40 | one more line adds that line's rendering to the output if it has a match, and nothing otherwise |
| Search.OutputLength | main.py:37-40 | the number of strings passed to `print` is the number of calls times one, or times two for the underscore formatter |
| Search.OutputBlock | main.py:37-40 | the strings call `k` prints appear, in order, right after those of the `k` calls before it |
| Search.SearchLine | main.py:39-40 | a line with at least one match prints what the chosen formatter renders for it, and a line without a match prints nothing |
| Search.OutputAppend | main.py:37-40 | one more call appends exactly that call's rendering to what the earlier calls printed |
| Search.LineFormatted | main.py:37-40 | a line with a match is formatted: its rendering appears in the file's output under its own 1-based line number |
| Search.NoMatchNoOutput | main.py:39-40 | a file with no match anywhere leads to no call of `format` |
| Search.SearchInFile | main.py:34-42 | a missing file prints the not-found message; otherwise the loop prints, line by line, the renderings of the lines with a match |
| Search.Run | main.py:20-31 | the formatter is chosen once from the flags, then each file is searched in the order given and their outputs are concatenated |

## Left out

- Argument parsing (`main.py:10-18`): the flags arrive as two booleans and the files as a list, and `--machine` has no effect in the code.
- Regex compilation and `finditer` (`main.py:27`, `main.py:38`): each line's spans are an input. They must be in bounds, ascending and non-overlapping, as `re.finditer` guarantees.
- Reading files: a file is given as its lines, terminators included, or as not found. Text-mode newline translation and decoding are not modelled.
- The generic exception handler (`main.py:43-44`) is not modelled, because which exceptions can arise depends on the I/O layer. The not-found message (`main.py:41-42`) is modelled.
- `print`: the formatters return their lines, and the search loop concatenates them.
- The abstract base class `OutputFormatter` (`main.py:47-50`) has no behaviour and is not modelled.
- PyStr.Strip: whitespace is the fixed set of code points that Python's `str.isspace` accepts. The set is written out in `IsSpace` rather than derived from the Unicode database.
- Highlight.HighlightedRoundTrip: the textual round trip needs a line with no escape character. `RemovePairsRoundTrip` covers every line by deleting by position.
- Formatters.ColorUnmarksToDefault: proved only when every match lies inside the part of the line that `strip` keeps, because outside it the claim fails in general (`MatchedNewlineSurvives`), and only when neither the file name nor the line holds an escape character, because deleting markers would also delete a marker-shaped text such as `ESC[0m` that the default formatter prints; neither condition is necessary in every case.
