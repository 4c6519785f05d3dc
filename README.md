# getme: keyword snippets, modelled in Dafny

getme is a small command-line tool. It fetches web pages, searches each page
for a literal keyword and prints every match with up to 200 characters of
context on each side. Inside each printed snippet, every match of a
left-to-right, non-overlapping scan for the keyword is wrapped in colour
markers. This project models the part of the
tool that computes these snippets, plus the decision in `main` about which
invocation form was used. It then proves properties of that model.

- `literal_search.dfy` (module `LiteralSearch`) models the search. The source
  quotes the keyword and asks a regular-expression engine for all of its
  matches. For a literal pattern that is a leftmost, non-overlapping scan, so
  the model writes the scan out directly: `MatchesFrom` and `FindAll`. The
  predicate `IsLeftmostScan` is an independent reference definition. It says
  the spans are ordered occurrences of the keyword and that every occurrence
  of the keyword begins inside one of them. `FindAll` meets this definition,
  and no other list of spans does.
- `highlight.dfy` (module `Highlighting`) models `highlightKeyword`. It
  rescans the snippet and wraps each match in the opening marker `Red` and the
  closing marker `Reset`. The output is described as a list of pieces: plain
  stretches and marked stretches. `Render` gives the printed text.
  `Erase` gives the same text with every marker pair deleted.
- `snippets.dfy` (module `Snippets`) models `extractSnippets`. It is a method
  with a loop over the matches. Like the source, it computes each window's
  start and end and then clamps them. It returns the printed entries, one per
  match, each written as `Magenta + "Snippet:" + Reset + "\n" +
  Highlight(snippet, keyword) + "\n\n"`. The text the source prints is the
  concatenation of these entries.
- `dispatch.dfy` (module `Dispatch`) models the argument-count decision in
  `main`. It returns either the usage outcome, an input error, or the URL
  list together with the keyword.

Texts are `string` values, with one `char` standing for one byte of the
source's Go strings. The markers are the source's escape sequences, but
nothing in the model depends on their content except their lengths.

The replacement template `Red + "$0" + Reset` expands to the opening marker,
the matched text and the closing marker. The escape character that follows
`$0` ends the group name.

A snippet is highlighted by a second scan that starts at the window's start,
not at the document's start. For a keyword that can overlap itself, such as
`aaa`, that scan can land on different occurrences than the first one. The
model keeps this behaviour. The triggering match is still highlighted in its
own snippet in two cases. `Snippets.TriggerHighlighted` proves it whenever no
two occurrences of the keyword in the document overlap, which always holds
for a keyword that cannot overlap itself, such as `hello`.
`Snippets.TriggerHighlightedNearStart` proves it for any keyword whenever the
window begins at the start of the document, that is, when the match begins
at or before position 200.

`extractSnippets` prints each highlighted window under a coloured `Snippet:`
label. `Snippets.ExtractSnippets` returns those entries in order.

## Model

| member | source | states |
|---|---|---|
| `LiteralSearch.FindAll` | getme.go:26-27 | the matches are half-open spans within the content whose text equals the keyword; their starts strictly increase and each ends at or before the next begins |
| `LiteralSearch.MatchesFromIsLeftmost` | getme.go:26-27 | the scan from any position reports ordered, non-overlapping occurrences of the keyword within the text, and skips none: every occurrence at or after that position begins inside a reported match |
| `LiteralSearch.FindAllIsLeftmost` | getme.go:26-27 | all the matches of the content form a leftmost, non-overlapping scan in the sense of the reference definition |
| `LiteralSearch.LeftmostScanUnique` | getme.go:26-27 | two span lists that both meet the reference definition are equal, so the matches are determined by the content and the keyword alone |
| `LiteralSearch.NoMatchesIffAbsent` | getme.go:27-29 | there are no matches, and so no loop iterations, exactly when the keyword occurs nowhere in the content |
| `Highlighting.PiecesOfErase` | getme.go:46-48 | splitting a text at ordered spans gives pieces that, with markers deleted, spell the text, with one marked piece per span |
| `Highlighting.RenderLength` | getme.go:48 | rendering adds exactly the length of one marker pair per marked stretch |
| `Highlighting.HighlightErases` | getme.go:46-48 | deleting every inserted marker pair from the highlighted snippet gives back the snippet, and there is one pair per match |
| `Highlighting.HighlightLength` | getme.go:46-48 | the highlighted snippet's length is the snippet's length plus the combined length of `Red` and `Reset` once per match |
| `Highlighting.HighlightMarksMatches` | getme.go:46-48 | the marked stretches sit exactly at the matches the scan finds in the snippet, and each one is the keyword |
| `Highlighting.HighlightUnchangedIffAbsent` | getme.go:46-48 | highlighting returns the snippet unchanged if and only if the keyword does not occur in it |
| `Snippets.Window` | getme.go:30-38 | the window contains the match and lies within the content; it is at most twice the context plus the match long, with equality exactly when the match is at least 200 units from both ends |
| `Snippets.ExtractSnippets` | getme.go:25-43 | one printed entry per match, in match order; entry i is the labelled, highlighted window around match i; no entries exactly when the keyword is absent |
| `Snippets.TriggerInSnippet` | getme.go:30-39 | the match that produced a snippet appears in it, at the match's offset from the window start |
| `Snippets.SnippetHighlighted` | getme.go:39-40 | every snippet contains the keyword, so highlighting always changes it |
| `Snippets.ShortDocumentShownWhole` | getme.go:30-39 | in a document of at most 200 units, every snippet is the whole document |
| `LiteralSearch.PrefixScan` | getme.go:26-27 | scanning a prefix of a text finds exactly the whole text's matches that end inside the prefix |
| `Snippets.TriggerHighlightedNearStart` | getme.go:30-40 | a match that begins at or before position 200 of the document is one of the occurrences highlighted in its own snippet |
| `LiteralSearch.UnborderedNoOverlap` | getme.go:26-27 | a keyword none of whose proper suffixes is also a prefix has no overlapping occurrences in any text |
| `LiteralSearch.OccurrenceIsMatch` | getme.go:26-27 | when occurrences of the keyword never overlap, every occurrence is one of the scan's matches |
| `Snippets.TriggerHighlighted` | getme.go:30-48 | when occurrences of the keyword never overlap in the document, the match a snippet was cut for is highlighted in it, at its offset from the window's start |
| `Dispatch.Decide` | getme.go:87-107 | wrong argument count gives usage and nothing else; otherwise the keyword is the last argument; with three arguments the URL list is the second argument alone; with two it is the lines read from standard input, or an input error if the read failed |
| `Dispatch.StdinOnlyForKeywordAlone` | getme.go:96-106 | standard input affects the decision only when the keyword is the sole argument |

## Left out

- `fetchContent` (getme.go:52-69) is left out. It is network I/O over HTTP.
- `worker` and the pool in `main` (getme.go:72-83, 109-124) are left out. They
  are goroutines, a channel and a wait group, and exist only for concurrency.
  This includes the `[URL]` header and the `Error:` line a worker prints.
- Reading URLs from standard input (getme.go:99-106) is I/O. Its outcome is
  the `StdinRead` parameter of `Dispatch.Decide`.
- Printing is left out. `Snippets.ExtractSnippets` returns the entries it
  would print, in order.
- Go's regular-expression engine is left out. Because the pattern is quoted,
  it is specified directly as a literal scan.
- Snippets.ExtractSnippets: requires a non-empty keyword, because an empty
  pattern matches at every UTF-8 character boundary under Go's empty-match
  rules. The same holds for `LiteralSearch.FindAll`, `LiteralSearch.MatchesFrom`
  and `Highlighting.Highlight`. `Dispatch.Decide` can still produce an empty
  keyword, and the model does not follow it further.
- UTF-8 is left out. Content is a sequence of abstract units, so the model
  does not capture a window boundary that splits a multi-byte character. It
  also does not capture the engine matching invalid bytes as U+FFFD.
- Snippets.ExtractSnippets: does not model the failure on a keyword that is
  not valid UTF-8. Quoting escapes only ASCII metacharacters, so the
  pattern compiler rejects such a keyword and `regexp.MustCompile`
  (getme.go:26, 47) panics. The panic is not recovered, so it ends the whole
  program at the first page fetched successfully. The model treats every
  sequence of units as a valid keyword and returns entries for it.
- How the colours look on a terminal is left out. The markers are opaque
  strings.
- Running the extraction twice on the same input gives the same result.
  In the model this holds by construction, because the extraction is
  deterministic, so it is not stated separately.
