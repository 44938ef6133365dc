# golit, modelled in Dafny

golit turns one Go source file into a literate-programming HTML page: the
comments go in the left column, the code in the right. This project models
the program's whole pipeline after its argument and environment checks:

- **Line classification** (`classify.dfy`, module `Classify`). The two
  anchored patterns are written as predicates: `docsPat` = `^\s*//\s` and
  `headerPat` = `^//\s#+\s`, where `\s` is RE2's `[\t\n\f\r ]`. `Strip` is
  the comment-prefix removal, `docsPat.ReplaceAllString(line, "")`.
- **Splitting the file into lines** (`text.dfy`, module `Text`).
  `strings.Split(text, "\n")` and joining with `"\n"`, with both round
  trips proved.
- **Segmentation** (`segment.dfy`, module `Segment`). The single forward
  pass keeps `lastSeen` and the growing segment list.
  - `Step`/`Feed`/`Run` state the pass as a fold.
  - `SegmentLines` is golit's loop, with `Absorb` as its body. It appends a new
    segment or edits the last one, and is proved to produce
    `Run(lines).Segs()`.
  - The lemmas state the pass's rules, including its order-dependent quirks.
- **Rendering** (`render.dfy`, module `Render`). Every segment's docs go to
  the Markdown renderer and its code, plus two spaces of padding, to the
  highlighter. The renderers are function parameters.
- **Page assembly** (`page.dfy`, module `Page`). A header with the title,
  one table row per segment, and a footer, as the string golit prints.
  `GolitLayout` holds golit's fixed HTML text verbatim, including its
  `http-eqiv` attribute name.
- **The pipeline** (`golit.dfy`, module `Golit`). Lines, then segments,
  then rendering, then the page.

Two consequences of the code that a reader may not expect:

- When a file's first line is not a header, it does not open a segment of
  its own. It lands in the initial empty segment, after a `"\n"`
  (`Segment.FirstLine`). So `"// Title\nfunc f() {}\n"` gives one segment,
  not two: docs `"\nTitle"`, code `"\nfunc f() {}\n"`
  (`Segment.DocThenCode`). A header line always opens its own segment
  (`Segment.HeaderOpens`), so a file that starts with a header keeps the
  initial segment empty.
- A header line opens its own segment but keeps the previous kind. So the
  line after it is handled as if it followed the line before the header,
  against the header's segment, whose docs are non-empty and whose code is
  empty (`Segment.LineAfterHeader`).
  - After earlier documentation, a doc line or an empty line goes onto the
    header segment's docs: `"// a\n// # H\n// b"` gives a header segment
    with docs `"# H\nb"`.
  - Otherwise a doc line opens a segment of its own.
  - A code line, and an empty line after anything but documentation, goes
    onto the header segment's code.
- So at the start of a file, the blank line and the code that follow a
  header go into the header segment's code, not into a new segment.
  `"// # Head\n\nfunc f() {}\n"` gives the initial segment and one segment
  with docs `"# Head"` and code `"\n\nfunc f() {}\n"`
  (`Segment.HeaderThenCode`).

## Model

| member | source | states |
|---|---|---|
| Classify.IsSpace | main.go:61-64 | defines RE2's `\s`, used by both patterns: tab, newline, form feed, carriage return or space |
| Classify.DocsMatch | main.go:61 | defines a `docsPat` match: the maximal leading whitespace, then `//`, then one whitespace character |
| Classify.HeaderMatch | main.go:64 | defines a `headerPat` match: `//` at column 0, one whitespace character, one or more `#`, then one whitespace character |
| Classify.Strip | main.go:120 | defines `docsPat.ReplaceAllString(line, "")` (also used at main.go:111): a matching line loses its leading whitespace, `//` and one whitespace character; any other line is returned unchanged |
| Classify.LeadingSpace | main.go:61 | `\s*` takes the longest whitespace run at the start of the line: everything before it is whitespace, and the character after it is not |
| Classify.HashRun | main.go:64 | `#+` takes the longest run of `#`: everything before it is `#`, and the character after it is not |
| Classify.DocsDecompose | main.go:120 | a documentation line is leading whitespace, `//`, one whitespace character, then exactly the stripped text |
| Classify.DocsCompose | main.go:120 | any such composition matches `docsPat` and strips to exactly its text |
| Classify.HeaderIsDocs | main.go:61-64 | every header line also matches `docsPat`; stripping it removes exactly its first three characters, so the heading keeps its leading `#` |
| Classify.HeaderDecompose | main.go:64 | a header line is `//`, whitespace, k >= 1 hashes, whitespace, then the rest |
| Classify.HeaderCompose | main.go:64 | any such composition matches `headerPat` |
| Classify.BlankIsNotDocs | main.go:61-64 | an empty or whitespace-only line matches neither pattern and strips to itself |
| Text.Lines | main.go:91 | splitting always gives at least one piece (`[""]` for the empty text) |
| Text.Join | main.go:91 | defines the inverse of the split: the pieces glued together with `"\n"` between them |
| Text.LinesHaveNoNewline | main.go:91 | no piece of a split contains a newline |
| Text.JoinLines | main.go:91 | joining the pieces with `"\n"` gives back the text |
| Text.LinesJoin | main.go:91 | splitting joined newline-free lines gives back the lines |
| Text.LinesAppend | main.go:91 | splitting at a newline splits both sides separately |
| Segment.NewSeg | main.go:68-70 | defines a segment as golit creates it at main.go:113, 122 and 131: the given docs and code, both rendered fields empty |
| Segment.Init | main.go:94-96 | defines the state before the first line: a single empty segment and no previous kind |
| Segment.HeaderPath | main.go:110 | defines when a line takes the header branch: it matches `headerPat`, or it is empty and the previous kind is header |
| Segment.DocsPath | main.go:119 | defines when a line takes the documentation branch: not the header branch, and it matches `docsPat` or is empty after docs |
| Segment.Step | main.go:98-137 | one line either closes the open segment unchanged and opens a new one, or edits only the open segment; it never stores `Header` |
| Segment.Feed | main.go:97-138 | from a state that is not `Header`, the pass never reaches `Header` |
| Segment.Run | main.go:94-138 | after any prefix of the input, `lastSeen` is unset, docs or code, never header |
| Segment.FeedCount | main.go:97-138 | each line closes at most one segment |
| Segment.SegmentCount | main.go:94-138 | a file of n lines gives between 1 and n + 1 segments |
| Segment.FeedKeepsClosed | main.go:101-134 | segments already closed stay closed and unchanged |
| Segment.ClosedSegmentsStay | main.go:101-134 | the segments closed after a prefix of the input begin the segments closed after the whole input: only the last segment is ever edited |
| Segment.FeedAppend | main.go:97-138 | the pass over two blocks in turn is the pass over their concatenation |
| Segment.StepHeader | main.go:110-117 | with `lastSeen` not header, a header line always opens a new segment with docs = the line minus its first three characters and empty code, and leaves `lastSeen` alone |
| Segment.HeaderOpens | main.go:104-117 | after any prefix of the input, a header line opens its own segment: the merge branch at main.go:115-116 is never taken |
| Segment.StepDocs | main.go:119-127 | a doc line, or an empty line after docs, opens a segment exactly when `lastSeen` is not docs and the open segment has docs; otherwise it adds `"\n"` + stripped text to the open docs; `lastSeen` becomes docs |
| Segment.StepCode | main.go:129-136 | every other line opens a segment exactly when `lastSeen` is not code and the open segment has code; otherwise it adds `"\n"` + the verbatim line to the open code; `lastSeen` becomes code |
| Segment.OpensIff | main.go:104-136 | a line opens a new segment if and only if it is a header, or a doc line under the doc condition, or a code-path line under the code condition |
| Segment.BlankLine | main.go:100-136 | only an exactly empty line after docs continues the docs (adding `"\n"`); any other empty or whitespace-only line is a code line kept verbatim |
| Segment.FirstLine | main.go:95-136 | a first line that is not a header lands in the initial segment after a `"\n"`, as docs if it matches `docsPat` and as code otherwise |
| Segment.CodeBlock | main.go:129-136 | while `lastSeen` is code, a block of non-doc lines is added to the open segment's code, in order and verbatim, each after a `"\n"` |
| Segment.CodeBlockLines | main.go:129-136 | after such a block, splitting the open code at newlines gives its earlier lines followed by exactly the block, and no segment is closed |
| Segment.DocsBlock | main.go:119-127 | while `lastSeen` is docs, a block of doc lines and empty lines is added to the open segment's docs, stripped and in order, each after a `"\n"` |
| Segment.DocThenCodeLines | main.go:91 | a doc line and a code line, each ending in a newline, split into those two lines and a final empty line |
| Segment.DocThenCode | main.go:95-136 | `"// t"`, a code line and the final empty line give a single segment, with docs `"\n"+t` and code `"\n"+code+"\n"` |
| Segment.HeaderThenCode | main.go:104-136 | a header, an empty line, a code line and the final empty line give the initial segment plus one header segment whose code is `"\n\n"+code+"\n"` |
| Segment.LineAfterHeader | main.go:104-136 | a header keeps the previous kind: after it, a doc or empty line joins the header segment's docs if docs came before the header, a doc line otherwise opens its own segment, and any code-path line joins the header segment's code |
| Segment.Absorb | main.go:98-137 | one loop iteration over the list-and-`lastSeen` state does exactly what `Step` does to the pass state |
| Segment.SegmentLines | main.go:94-138 | the loop builds exactly the segment list `Run` describes |
| Render.RenderSeg | main.go:143-144 | defines one rendered segment: raw docs and code kept, `docsRendered` = renderDocs(docs), `codeRendered` = renderCode(code + two spaces) |
| Render.RenderAll | main.go:142-145 | rendering keeps the list's length and order and each segment's raw text; the rendered fields are the renderers' output on the docs and on the code plus two spaces |
| Render.Render | main.go:142-145 | the render loop, overwriting each segment's rendered fields in place, produces `RenderAll` |
| Render.RenderIdempotent | main.go:142-145 | rendering twice gives the same list as rendering once |
| Render.RenderIgnoresOldOutput | main.go:142-145 | the result depends only on the raw docs and code, not on whatever the rendered fields held before |
| Render.RenderAppend | main.go:142-145 | rendering works segment by segment: rendering a concatenation concatenates the renderings |
| Page.GolitLayout | main.go:148-182 | golit's fixed page text, character for character: the head around the title, the text around each row's two fragments, and the footer |
| Page.Header | main.go:148-166 | defines the page header: the fixed text up to `<title>`, the title verbatim, then the fixed text up to `<tbody>` |
| Page.Row | main.go:170-174 | defines one segment's table row: fixed text, its rendered docs verbatim, fixed text, its rendered code verbatim, fixed text |
| Page.Rows | main.go:169-175 | defines the rows of a segment list: each segment's row, in list order |
| Page.Document | main.go:148-182 | defines the whole page: the header, the rows, then the footer |
| Page.RowsAppend | main.go:169-175 | the rows of a concatenation are the rows of each part |
| Page.RowAt | main.go:169-175 | segment i's row comes after the rows of the segments before it and before the rows of those after it: one row per segment, in order |
| Page.PageLayout | main.go:148-182 | the page starts with the fixed text up to `<title>`, has the title verbatim right after it, and ends with the footer |
| Page.TitleDetermined | main.go:148-167 | the same segments under two different titles give two different pages |
| Page.Assemble | main.go:147-182 | printing the header, each row and the footer in turn gives `Document` |
| Golit.Html | main.go:91-182 | defines the page for a source text: split into lines, segment, render every segment, then assemble the page |
| Golit.Generate | main.go:91-182 | splitting, segmenting, rendering and printing give exactly the page of the rendered segments of `Run(Lines(source))` |
| Golit.GenerateWith | main.go:91-182 | the same flow with any fixed page text gives exactly `Html` for that text |
| Golit.RowOfSegment | main.go:142-175 | the page holds one row per segment, in order, and segment i's row holds `renderDocs(docs)` and `renderCode(code + "  ")` |
| Golit.EmptySource | main.go:91-182 | an empty file gives exactly one row: the initial segment, with docs `""` and code `"\n"` |

## Left out

- Process plumbing is not modelled: the argument count check and usage message, `os.Args`, `os.Exit`, `exec.LookPath`, `ioutil.ReadFile`, and `check`/`panic`. The source text and the title are parameters.
- `pipe`, which runs the external `markdown` and `pygmentize` programs over pipes, is not modelled. The two renderers are total function parameters, so a renderer that fails, or that answers differently for the same input, is not covered.
- Printing to standard output is modelled as the returned string built from the same pieces in the same order.
- Segments are values (`seq<Seg>`), not the `*seg` pointers golit keeps. `Absorb` and `Render` edit the element of the list that golit reaches through `lastSeg` or the range variable. Because golit shares no segment between two list slots, the list comes out the same.
- Text is a `seq<char>`, not a sequence of bytes. The patterns only look at ASCII characters, which are the same either way.
- `Page.Assemble` takes the fixed page text as a `Layout` parameter, and `Golit.Generate` passes golit's own text, `Page.GolitLayout()`. The page lemmas are stated for every layout.
