# Vaccination-information chat: transcript controller and reply renderer

This project models the core of a single-page chat assistant that answers
questions about the national immunization programme. The project is in Dafny. The core lives in
`App.tsx` and has three parts.

- **The transcript controller** (`handleSubmit` and its three stream
  callbacks). It owns the ordered list of messages and the session status
  (idle, loading, error).
  - A submission of non-blank text while no reply is loading appends the
    user's message and an open model placeholder.
  - It sends upstream the history of every earlier message that has text,
    followed by the new question.
  - The placeholder is then filled in from the reply stream. Text and
    "thought" fragments are concatenated as they arrive.
  - On completion the stream is closed and the filtered grounding sources
    are attached.
  - On failure the placeholder is replaced by a warning message.
- **The grounding sources.** Each citation of a finished reply becomes a
  title/uri record. A missing title is replaced by the agency's name.
  Only pages on the agency's domain are kept. A long title is cut to thirty
  characters for its link label.
- **The reply renderer** (`renderContent`).
  - A reply is split around its pipe-table blocks.
  - A table block becomes the inner markup of a `<table>`: the first row is
    the header, `---` rows are dropped, and cells are trimmed and emboldened.
  - The other parts get a reduced markdown transform: `### ` headings, `**`
    bold spans, and line breaks.

`App.tsx` is a React component; its state is kept in hooks. In the model
that state is a `Chat.Controller` object whose methods update
`messages` and `status` in place. The renderer's functions are pure
functions over strings. Each regular expression of the source is written
out as a scan with JavaScript's semantics:

- `.` stops at line terminators;
- `*?` is lazy and `*` is greedy;
- the leftmost match is taken;
- `split` with a capturing group keeps the captured blocks between the
  parts.

`trim` uses JavaScript's whitespace set. The table conversion's
`forEach` loop is a method with a loop invariant, proved against a
specification function of the rows.

Files:

- `types.dfy`: the records of `types.ts`, plus the chunk, citation and
  failure shapes the stream callbacks receive.
- `strings.dfy`: `trim`, `split`, `includes`/`indexOf`, line ends.
- `seqs.dfy`: `filter`, `map`, concatenation.
- `markdown.dfy`: `convertMarkdownToHTML`.
- `table.dfy`: `convertMarkdownTableToHTML`.
- `segments.dfy`: the split and classification of `renderContent`.
- `sources.dfy`: the grounding-source filter and the link label.
- `chat.dfy`: the transcript controller.

## Model

| member | source | states |
|---|---|---|
| Strings.Split | App.tsx:79 | `split` on one character gives at least one piece, and no piece contains the separator |
| Strings.SplitJoin | App.tsx:79 | joining the pieces of a split with the separator gives back the text |
| Strings.SplitCount | App.tsx:79 | a split has one more piece than the text has separators, so a table block has one row per line feed plus one |
| Strings.SplitWithoutSeparator | App.tsx:84 | a text without the separator splits into itself alone |
| Strings.Trim | App.tsx:79 | `trim`, used at App.tsx:79, 90 and 102; its properties are stated by `TrimIsInfix`, `TrimKeeps`, `TrimIdempotent` and `BlankIffAllWhitespace` |
| Strings.TrimIsInfix | App.tsx:79 | `trim` returns a contiguous infix of the text: all whitespace is dropped before and after it, and the result neither starts nor ends with whitespace |
| Strings.TrimKeeps | App.tsx:90 | a text that neither starts nor ends with whitespace trims to itself |
| Strings.TrimIdempotent | App.tsx:79 | trimming twice is trimming once |
| Strings.BlankIffAllWhitespace | App.tsx:102 | `!input.trim()` holds exactly when every character of the input is JavaScript whitespace |
| Strings.ContainsChar | App.tsx:84 | the `indexOf` test for a pipe, which the piece filter is written with, holds exactly when the row contains a pipe character |
| Strings.ContainsSuffix | App.tsx:148 | a text that contains `a + b` contains `b` |
| Strings.LineEndIsFirst | App.tsx:73 | the scan for the end of a line stops at the first line terminator, so what `.*` matches is one line |
| Strings.LineEndAtEnd | App.tsx:73 | on text with no line terminator, `.*` runs to the end |
| Strings.OneLineIff | App.tsx:74 | the recursive one-line test holds exactly when no character is a line terminator |
| Seqs.Filter | App.tsx:114 | `filter` keeps only elements that pass the test, and keeps no more than there were |
| Seqs.Map | App.tsx:116 | `map` keeps the length and applies the function to each element in place |
| Seqs.FilterIndices | App.tsx:114 | `filter` keeps exactly the elements that pass the test, in their order, at increasing original positions |
| Seqs.MapFilterIndices | App.tsx:142-149 | `filter` then `map` yields one result for each passing element, in order, and none for the others |
| Markdown.ConvertMarkdown | App.tsx:71-76 | the converted markup holds no line feed: every one became `<br/>` |
| Markdown.Breaks | App.tsx:75 | replacing every `\n` leaves no line feed |
| Markdown.BreaksJoinsLines | App.tsx:75 | replacing every `\n` by `<br/>` is joining the text's lines with `<br/>` |
| Markdown.MarkdownLines | App.tsx:71-76 | the conversion works line by line: converting `a + "\n" + b` gives the conversion of `a`, then `<br/>`, then the conversion of `b` |
| Markdown.Headings | App.tsx:73 | the heading rewrite; its properties are stated by `HeadingLine`, `HeadingMidLine`, `HeadingsPrefix`, `HeadingsPlain` and `HeadingsLines` |
| Markdown.HeadingLine | App.tsx:73 | a line `### t` becomes `<h3>t</h3>` |
| Markdown.HeadingsPrefix | App.tsx:73 | text free of `#` is copied unchanged, whatever follows it |
| Markdown.HeadingsPlain | App.tsx:73 | a text without `#` is left as it is |
| Markdown.HeadingMidLine | App.tsx:73 | the pattern is not anchored: `p + "### " + t`, with `p` free of `#` and `t` on one line, becomes `p + "<h3>" + t + "</h3>"` |
| Markdown.HeadingsLines | App.tsx:73 | the heading rewrite never crosses a line feed: it rewrites `a + "\n" + b` as `a` and `b` separately |
| Markdown.FindClose | App.tsx:74 | the search for the closing `**` of a bold span only answers with a position holding `**` |
| Markdown.FindCloseFinds | App.tsx:74 | the search for the closing `**` succeeds whenever a `**` follows on the same line |
| Markdown.FindCloseIsLazy | App.tsx:74 | the closing `**` found is the first one after the opening, and the span between them is on one line (`.*?` is lazy and `.` stops at line terminators) |
| Markdown.Bold | App.tsx:74 | the bold rewrite; its properties are stated by `BoldPlain`, `BoldPrefix`, `BoldSpan`, `BoldSpanThen`, `BoldSpanIn` and `BoldLines` |
| Markdown.BoldPrefix | App.tsx:74 | text free of `*` is copied unchanged, whatever follows it |
| Markdown.BoldPlain | App.tsx:74 | text without `*` is left as it is by the bold rewrite |
| Markdown.BoldSpan | App.tsx:74 | `**x**`, with `x` on one line and free of `*`, becomes `<strong>x</strong>` |
| Markdown.BoldSpanThen | App.tsx:74 | `**x**` at the start of a text, with `x` on one line and free of `*`, becomes `<strong>x</strong>`, and the rewrite goes on after it |
| Markdown.BoldSpanIn | App.tsx:74 | a span inside running text: `p + "**" + x + "**" + r`, with `p` and `x` free of `*` and `x` on one line, becomes `p + "<strong>" + x + "</strong>"` followed by the rewrite of `r` |
| Markdown.BoldLines | App.tsx:74 | the bold rewrite never crosses a line feed: it rewrites `a + "\n" + b` as `a` and `b` separately |
| Table.TableRows | App.tsx:79 | the trimmed block always has at least one row |
| Table.DropEmptyEndsIsInfix | App.tsx:86-87 | `shift` and `pop` keep a contiguous run of the pieces: the first piece is dropped exactly when it is empty, and the last piece left after that is dropped exactly when it is empty |
| Table.CellsOf | App.tsx:84-87 | the cells of a row are no more than its pieces; `CellsOfPipeRow`, `CellsOfPlainRow` and `DropEmptyEndsIsInfix` state what they are |
| Table.SplitCells | App.tsx:84-87 | splitting at a pipe, filtering and dropping the empty ends gives the cells of the row |
| Table.CellsOfPipeRow | App.tsx:84-87 | in a row holding a pipe the filter keeps every piece, so the cells are the pieces minus one empty piece at each end |
| Table.CellsOfPlainRow | App.tsx:84-87 | a row without a pipe is a single cell, or no cell when it is blank |
| Table.BoldCell | App.tsx:90 | a cell `**x**` renders as `<tag><strong>x</strong></tag>` |
| Table.AppendRow | App.tsx:82-94 | one iteration of the row loop appends exactly that row's markup: nothing for a separator, the header for row 0, a body row otherwise |
| Table.RowsHtmlStep | App.tsx:82-94 | one more row adds exactly that row's markup at its own index |
| Table.TableHtml | App.tsx:78-98 | the markup of a table block; `TableLayout` and `BodyRows` state its layout |
| Table.ConvertTable | App.tsx:78-98 | the loop over the rows produces the table's markup |
| Table.TableLayout | App.tsx:78-98 | a table is its header (none when the first row is a separator), then one body row for each later row that is not a separator, in order, then `</tbody>` |
| Table.RowsLayout | App.tsx:82-96 | the layout of `TableLayout`, for any non-empty list of rows |
| Table.BodyRows | App.tsx:82-94 | body row `j` is the markup of the `idx[j]`-th row after the first, indices increase, and a row gets one exactly when it is not a separator |
| Segments.LastBar | App.tsx:46 | the backtracking of the greedy row pattern finds a pipe inside the line |
| Segments.LastBarIsLast | App.tsx:46 | the pipe found is the last one of the line, and none is found only when there is none |
| Segments.RowAt | App.tsx:46 | a row match starts at a pipe, ends just after a pipe, and has at least two characters |
| Segments.RowAtEnd | App.tsx:46 | a row match is never followed by a pipe |
| Segments.NextLineStart | App.tsx:46 | `\r?\n` consumes at most two characters |
| Segments.ExtendRows | App.tsx:46 | the greedy repetition of further rows; it only moves the end of the block forward, and `ExtendRowsMaximal` and `NextRowInBlock` state that it takes in every row that follows on the next line |
| Segments.ExtendRowsMaximal | App.tsx:46 | after the rows taken in, the next line (after a line feed or carriage return and line feed) does not hold a row: the repetition stops only where the rows stop |
| Segments.ExtendRowsEnd | App.tsx:46 | after taking in rows, a block is still not followed by a pipe |
| Segments.BlockEndsWithBar | App.tsx:46 | after taking in rows, a block still ends with a pipe |
| Segments.BlockAt | App.tsx:46 | a block has at least two characters |
| Segments.NextRowInBlock | App.tsx:46 | a row on the line right after a row belongs to the same block: the block reaches at least to that row's end |
| Segments.BlockIsMaximal | App.tsx:46 | a block ends where its consecutive rows end: the line after it is no row, so a table of N rows is captured as one block |
| Segments.TwoRowsOneBlock | App.tsx:46 | a table of two one-cell rows, `a` and `b` between pipes on consecutive lines, is captured whole as one block of seven characters |
| Segments.BlockShape | App.tsx:46 | a block starts and ends with a pipe and is not followed by one |
| Segments.BlockText | App.tsx:46 | the text of a block found is a table block |
| Segments.NextBlock | App.tsx:46 | the block found starts at or after the search position, and no block starts between the search position and it (it is the leftmost); when none is found, no block starts anywhere after the search position |
| Segments.SplitBlocks | App.tsx:46 | the parts of a reply; `SplitRoundTrip` and `SplitShape` state what they are |
| Segments.SplitFromStep | App.tsx:46 | when a block is found, the split is the text before it, then the block, then the split after it |
| Segments.SplitFromConcat | App.tsx:46 | the parts from a position, joined, are the rest of the text |
| Segments.SplitRoundTrip | App.tsx:46 | the parts of the split, joined, give back the reply |
| Segments.SplitFromOdd | App.tsx:46 | the split has one more text part than blocks |
| Segments.SplitFromBlocks | App.tsx:46 | every part at an odd index is a captured block that starts and ends with a pipe |
| Segments.SplitFromTexts | App.tsx:46-49 | no part at an even index after the first starts with a pipe |
| Segments.FirstAfterBlock | App.tsx:46-49 | the text part right after a block never starts with a pipe |
| Segments.SplitShape | App.tsx:46-49 | the parts alternate: every block is classified as a table, and no text part but the first is |
| Segments.RenderContent | App.tsx:42-66 | an empty reply renders to nothing, otherwise to one block per part |
| Segments.LeadingBarIsNotATable | App.tsx:46-49 | the reply made of a pipe and the letter x holds no table block, yet it is rendered as a table |
| Segments.RenderBlocks | App.tsx:46-49 | the corrected rendering gives one block per part, and nothing for an empty reply |
| Segments.RenderBlocksTables | App.tsx:46-49 | under the corrected rendering, a part is rendered as a table exactly when it is a captured table block |
| Segments.RenderContentAgrees | App.tsx:46-49 | the rendering as written equals the corrected one whenever the first part does not start with a pipe |
| Sources.SourcesOf | App.tsx:142-149 | there are no more sources than citations; `SourcesAreOfficial` and `SourcesInOrder` state which ones and in what order |
| Sources.ToCandidate | App.tsx:143-146 | a citation's record has a non-empty title: the cited one when it is non-empty, else the agency's name; its uri is the cited one |
| Sources.PortalIsOfficial | App.tsx:147-148 | a uri on `nip.kdca.go.kr` is on `kdca.go.kr`, so the filter's second test never keeps anything the first drops |
| Sources.AllowedIffOfficial | App.tsx:147-148 | the filter keeps a record exactly when its uri is present, non-empty and on `kdca.go.kr` |
| Sources.SourcesAreOfficial | App.tsx:142-149 | every attached source has a non-empty title and a non-empty uri on the agency's domain |
| Sources.SourcesInOrder | App.tsx:142-149 | the sources follow the citations' order, and a citation is used exactly when its record passes the filter |
| Sources.ShortTitle | App.tsx:265 | a label has at most 33 characters; a title of at most 30 is shown as it is; a longer one shows its first 30 characters and then `...` |
| Chat.History | App.tsx:113-119 | the history has at least one entry and at most one more than the earlier messages, and it ends with the user's entry; `HistoryShape` states the rest |
| Chat.HistoryShape | App.tsx:113-119 | the history has one entry per earlier message with text, in order and with that message's role and text, then the user's entry; messages without text are left out |
| Chat.FirstHistory | App.tsx:113-119 | on the first submission the banner has no text, so the question is sent alone |
| Chat.FragmentsSnoc | App.tsx:127-128 | a chunk appends its text and thought fragments to the concatenations of those received so far |
| Chat.Accumulate | App.tsx:127-128 | `acc += fragment` when the fragment is truthy is appending the fragment, or nothing when it is missing or empty |
| Chat.ErrorText | App.tsx:171 | the error text is the warning marker followed by the failure's message, or by the default text when the message is missing or empty |
| Chat.Controller.constructor | App.tsx:10-14 | the transcript starts as the banner alone, idle, and satisfies the invariant |
| Chat.Controller.Submit | App.tsx:100-119 | blank input, or a reply that is still loading, changes nothing and sends nothing. Otherwise the user message and an open placeholder are appended, the status becomes loading, and the history of the earlier messages is sent. The invariant is kept, so there is never more than one open placeholder |
| Chat.Controller.OnChunk | App.tsx:126-140 | only the last message changes; its text and thought become the concatenations of all fragments received |
| Chat.Controller.OnComplete | App.tsx:141-162 | only the last message changes: it is closed and gets the filtered sources, keeping its text and thought. The fragments received stay as they were, and the status becomes idle |
| Chat.Controller.OnError | App.tsx:163-176 | only the last message changes: it is replaced by the error message. The fragments received stay as they were, and the status becomes error |
| Chat.QuestionNotBlank | App.tsx:102 | the example question passes the blank test |
| Chat.ReplyFragments | App.tsx:127-128 | the chunks "안" and "녕" accumulate to the text "안녕" and an empty thought |
| Chat.QuestionStreamed | App.tsx:100-140 | after a question and two chunks the transcript is the banner, the question and the open placeholder showing "안녕" |
| Chat.QuestionAnswered | App.tsx:100-178 | a question answered in two chunks without citations ends as the banner, the question and the closed reply "안녕" with no sources |
| Chat.QuestionFailed | App.tsx:163-176 | a failure without a message makes the third message the warning with the default text, and the status error |
| Chat.SubmitWhileLoading | App.tsx:102 | a second submission while the first reply loads sends nothing and leaves the transcript as it was |

## Left out

- The streaming client (`chatWithGemini`, services/geminiService.ts) is not part of this model. Its network request, stream framing, abort signal and rewriting of upstream errors are all outside the model. Its events arrive as calls of `OnChunk`, `OnComplete` and `OnError`.
- Chat.Controller.OnChunk: requires the status to be loading. The same holds for `OnComplete` and `OnError`. The client only calls these callbacks while its request is in flight, and never after its final call.
- Chat.Controller.Submit: takes the submitted text as a parameter. The input field, `setInput('')` and `preventDefault` are not modelled.
- The state updates are applied at once and in order. React's batching and re-rendering are not modelled. As in the source, the history is built from the messages as they were before the submission.
- `console.error` logging, `scrollToBottom` and the JSX layout are not modelled. Only the link label (App.tsx:265) and `renderContent` are taken from the layout.
- `handleDownloadTable` (App.tsx:25-39) is not modelled. It renders the DOM table to a PNG image, which is browser I/O.
- assets.ts (image URLs) and vite.config.ts (build configuration) are not part of this model. The banner's URL is a parameter.
- The `Message` record of types.ts has no `thought` field, but App.tsx:109 and App.tsx:136 write one. The model's `Message` carries it.
- Loosely typed upstream values are not modelled. Chunk and citation fields, and `error.message`, are modelled as optional strings; other kinds of value are not.
- Sources.ShortTitle: counts characters as Unicode scalar values, while JavaScript's `length` and `substring` count UTF-16 code units. Titles with characters outside the Basic Multilingual Plane are cut at a different place.
- No HTML escaping is done, as in the source. The regular expressions are written out for the four patterns used. No general regular-expression engine is modelled.

## Findings

| source | as written | input that shows it | evidently intended | confidence | as-written member | corrected member |
|---|---|---|---|---|---|---|
| App.tsx:46-49 | a part is rendered as a table when it starts with a pipe | the two-character reply made of a pipe and the letter x: its first line starts with a pipe but has no second pipe, so the split captures no block, yet the whole reply is rendered as a table | only the blocks the split captured (the parts at odd indices) are rendered as tables | medium, not executed | Segments.LeadingBarIsNotATable | Segments.RenderBlocks |
