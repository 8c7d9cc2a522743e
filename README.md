# markdown2html in Dafny

A model of the converter in `markdown2html.py`, a small Markdown-to-HTML
translator, with proofs about what it emits.

The converter splits its input into lines and walks them with a cursor `i`:

- A line starting with `# ` ... `###### ` becomes `<h1>` ... `<h6>`, wrapped around
  the rest of the line after the marker.
- A line starting with `- ` hands the remaining lines to `list_handler`. That
  function renders the longest run of `- ` lines as `<ul>`, one
  `<li>...</li>` per line (marker removed) and `</ul>`, and returns how many lines
  it used. The cursor then advances by that count **and by one more**.
- Every other line (blank, plain text, `####### x`, ...) emits nothing.

The emitted fragments are joined with `"\n"`.

Layout:

- `text.dfy` (module `Text`) holds the string built-ins the converter uses:
  `startswith`, `splitlines` (at `'\n'`) and `"\n".join`, with their
  round-trip lemmas.
- `markdown2html.dfy` (module `Markdown2Html`) holds the converter:
  - the imperative routines `ListHandler`, `Markdown2Html`, `ConvertLines`
    (the `while` loop) and `ConvertLine` (the loop body with its `if`/`elif`
    chain);
  - the functions that specify them: `Classify`, `RunEnd`, `ItemsBetween`,
    `ListBlock`, `StepAt` (one turn of the loop), `FragmentsFrom`/`Fragments`
    (the whole walk) and `Visited` (the cursor positions);
  - the lemmas about those functions.

### Behaviour worth knowing

- After a list of n lines starting at i, the cursor moves to i + n + 1: it
  adds `line_count` (line 54) and then 1 (line 55). So the line right after
  every list is never examined. A heading there is lost
  (`HeadingAfterListIsLost`), and whatever non-list line stands there does
  not change the output (`DocumentIgnoresLineAfterList`,
  `ListSwallowsNextLine`, `LineAfterListNotVisited`).
- The if-chain tests `# ` first and `###### ` last. At most one marker
  matches a line (`MarkersExclusive`), so the order does not matter.

## Model

| member | source | states |
|---|---|---|
| `Markdown2Html.ListHandler` | markdown2html.py:7-24 | the count is the length of the longest prefix of `- ` lines: every earlier line starts with `- `, the line at the count does not, and the count equals `RunEnd(lines, 0)`; the list is `<ul>`, then `<li>` + `line[2:]` + `</li>` for each counted line in order, then `</ul>`, so count + 2 entries |
| `Markdown2Html.Markdown2Html` | markdown2html.py:27-57 | the result is the fragments of the walk over the input's lines joined with `"\n"`; splitting the result at `'\n'` gives exactly those fragments back (one fragment per output line); the result never ends with `'\n'`; empty input gives `""` |
| `Markdown2Html.ConvertLines` | markdown2html.py:33-55 | the `while` loop leaves in `html_lines` exactly the fragments of the walk from line 0, `Fragments(lines)` |
| `Markdown2Html.ConvertLine` | markdown2html.py:38-55 | one pass of the loop body appends exactly what `StepAt` emits for line i and leaves the cursor where `StepAt` moves it |
| `Markdown2Html.StepAt` | markdown2html.py:38-55 | each turn moves the cursor strictly forward, and by at most one past the end of the input |
| `Markdown2Html.Visited` | markdown2html.py:37-55 | the cursor positions the loop examines are in range, strictly increasing and start at the first line, so the loop ends |
| `Markdown2Html.FragmentsInCursorOrder` | markdown2html.py:37-55 | the output is what each examined line emits, in order of increasing cursor position |
| `Markdown2Html.ClassifyMeaning` | markdown2html.py:39-51 | a line is a heading of level k (1..6) with text `line[k+1:]` exactly when it starts with k `#` and a space; it is a list line exactly when it starts with `- `; otherwise it emits nothing |
| `Markdown2Html.MarkerMatch` | markdown2html.py:39-50 | the level-k marker matches exactly when the line starts with k `#` characters, no more, and then a space |
| `Markdown2Html.LeadingHashes` | markdown2html.py:39-50 | the count is the number of leading `#` characters: all of them before it are `#`, the one at it (if any) is not |
| `Markdown2Html.MarkersExclusive` | markdown2html.py:39-50 | no line starts with two different heading markers, so the order of the `elif` chain does not matter |
| `Markdown2Html.SevenHashesArePlain` | markdown2html.py:39-51 | a line starting with seven or more `#` is not a heading and emits nothing |
| `Markdown2Html.HeadingLine` | markdown2html.py:39-50 | a heading line of level k emits exactly `<hk>` + `line[k+1:]` + `</hk>`, and the next line is examined next |
| `Markdown2Html.PlainLine` | markdown2html.py:37-55 | a line with no heading or list marker emits nothing, and the next line is examined next |
| `Markdown2Html.ListLine` | markdown2html.py:51-55 | a `- ` line emits `<ul>`, the items of the whole run (at least one), `</ul>`; the next line examined is one past the line that ended the run |
| `Markdown2Html.RunEnd` | markdown2html.py:16-21 | the run of `- ` lines from i ends at the first line at or after i that does not start with `- `, or at the end of the input |
| `Markdown2Html.RunEndUnique` | markdown2html.py:16-21 | any index that has `- ` lines before it and a non-`- ` line (or the end) at it is the end of the run: the run is the longest one |
| `Markdown2Html.ItemsBetween` | markdown2html.py:18 | one entry per line of the run, in order, entry p being `<li>` + `line[2:]` + `</li>` of line i + p |
| `Markdown2Html.ListSwallowsNextLine` | markdown2html.py:52-55 | replacing the line right after a list by any other non-list line does not change the output from the list's first line on |
| `Markdown2Html.DocumentIgnoresLineAfterList` | markdown2html.py:52-55 | for a list the walk reaches, replacing the line right after it by any other non-list line does not change the whole output |
| `Markdown2Html.PrefixAgree` | markdown2html.py:37-55 | two inputs that agree on the lines before a position the walk from c reaches, and whose outputs from that position agree, have the same output from c |
| `Markdown2Html.SameStep` | markdown2html.py:38-55 | one turn reads only the lines from the cursor up to where it jumps: two inputs that agree there have the same turn |
| `Markdown2Html.LineAfterListNotVisited` | markdown2html.py:52-55 | the cursor never lands on the line that ends a list run |
| `Markdown2Html.HeadingAfterListIsLost` | markdown2html.py:51-55 | for the input lines `- a` and `# T` the output is `<ul>`, `<li>a</li>`, `</ul>`: the heading is dropped |
| `Markdown2Html.SuffixOnly` | markdown2html.py:37-55 | the output from cursor i depends only on the lines from i on |
| `Markdown2Html.FragmentsWellFormed` | markdown2html.py:14-22 | every fragment is a heading or part of a list; each `<ul>` is followed only by `<li>` entries and then its `</ul>`, so lists never nest and each is closed |
| `Markdown2Html.FragmentsAreLines` | markdown2html.py:40-53 | when no input line holds a newline, every fragment is a non-empty string without a newline |
| `Markdown2Html.OneFragmentPerLine` | markdown2html.py:57 | the fragments joined with `"\n"` and split again at `'\n'` are the fragments themselves, and their join does not end with `'\n'` |
| `Markdown2Html.Classify` | markdown2html.py:39-51 | the if/elif chain as a classification of one line; its meaning is stated by `ClassifyMeaning` |
| `Markdown2Html.FragmentsFrom` | markdown2html.py:37-55 | what the `while` loop emits from cursor i to the end; its meaning is stated turn by turn by `HeadingLine`, `PlainLine` and `ListLine`, and as a whole by `FragmentsInCursorOrder` |
| `Markdown2Html.Fragments` | markdown2html.py:33-55 | `html_lines` at the end of the loop, the walk from line 0; `ConvertLines` is proved to compute it |
| `Markdown2Html.ListBlock` | markdown2html.py:14-22 | `html_list` of `list_handler` for the run from i up to e; its shape is stated by `ListBlockShape` |
| `Markdown2Html.ListBlockShape` | markdown2html.py:14-22 | the block has e - i + 2 entries: `<ul>` first, `</ul>` last, and in between `<li>` + `line[2:]` + `</li>` of each run line in order |
| `Markdown2Html.ListTurnIgnoresNextLine` | markdown2html.py:51-55 | the turn at a list line emits the same block and jumps to the same cursor whatever non-list line ends the run; so when the outputs after the jump agree, the outputs from the list line agree |
| `Text.StartsWith` | markdown2html.py:17 | `str.startswith`; the markers it tests are characterised by `MarkerMatch` |
| `Text.Join` | markdown2html.py:57 | `"\n".join`; its round trips with `SplitLines` are `JoinThenSplit` and `SplitThenJoin`, its last character is given by `JoinLastChar` |
| `Text.JoinLastChar` | markdown2html.py:57 | a join whose last part is not empty ends with that part's last character |
| `Text.SplitLines` | markdown2html.py:34 | no line holds a `'\n'`, and there are lines exactly when the content is non-empty |
| `Text.SplitThenJoin` | markdown2html.py:34 | joining the lines with `"\n"` gives the content back, up to one final `'\n'` that `splitlines` drops |
| `Text.JoinThenSplit` | markdown2html.py:57 | splitting a `"\n"`-join of newline-free parts whose last part is not empty gives the parts back |

## Left out

- The command-line entry point (`__main__`, markdown2html.py:60-88) is not modelled: argument count check, missing-file check, file reading and writing, messages on stderr and exit codes. It is all I/O.
- Text.SplitLines: splits at `'\n'` only. Python's `str.splitlines` also splits at `\r`, `\r\n`, `\v`, `\f`, `\x1c` to `\x1e`, `\x85`, `\u2028` and `\u2029`; input holding those characters is not covered.
- Markdown2Html.ConvertLines: the loop of `markdown2html` and its body are two methods here (`ConvertLines`, `ConvertLine`), and `markdown2html` calls the first. This keeps each proof small. The branches, the appends and the cursor updates are those of the source.
- Strings are sequences of characters: encodings, Unicode normalisation and the file's byte content are not modelled.
