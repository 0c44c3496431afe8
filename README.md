# xfmt reflow engine in Dafny

xfmt reformats text: it re-wraps comment-like paragraphs to a maximum
width while keeping each line's indentation and comment marker. This
project models its reflow engine and proves what that engine guarantees.
The model covers the library (`xfmt.go`) and the older command (`main.go`),
which carries a near-verbatim copy of the same algorithm.

The engine has five parts, one module each, plus the two drivers:

- `Prefix` is the prefix classifier `parseLine` and the byte test `startsWithNonText`.
  A line splits into a prefix and content. The prefix is blanks, an optional
  `//` (tried first) or `#`, then blanks.
- `Wrapping` is the greedy word wrapper `splitLine`. Content longer than the
  width is cut at single spaces, and the words are packed greedily. The
  width is a parameter: `Config.MaxWidth` for the library, `-width` for the command.
- `LineSource` models the buffered reader as the whole input plus a position.
  `ReadString('\n')` becomes `ChunkEnd`, and the terminator split of
  `peekLine` becomes `Terminated`.
- `Gathering` is the paragraph gatherer `gatherLine` and the one-line
  lookahead buffer `peekLine`/`consumeLine`.
  - The specification function `GatherFrom` follows the Go loop branch by branch.
  - The class `Parser` holds `curLine`/`curLineend` and is proved against that function.
  - `RefGather` is an independent two-phase reference gatherer. It skips
    empty-content lines, then collects the maximal run of joining lines.
- `Xfmt` is the library's formatter and driver loop.
  - The class `Formatter` has an `out` buffer that `Write` appends to.
  - The whole run is stated as a function from input to output, `FormatText`.
- `Cli` is the command's `main` loop over the same parser.
- `Scenarios` holds concrete runs that pin down the less obvious behaviour.
  - An interior blank line is absorbed into the next paragraph.
  - A trailing blank line is still written.
  - A `- item` line takes the plain text that follows it, but no list item
    joins the text before it.
  - `'Z'` counts as non-text.

Strings are `seq<char>` with one character per byte of the input.

The model follows the code where other files of the repository suggest otherwise:

- `Config` has only `MaxWidth` (xfmt.go:12-14). The newer command
  (cmd/xfmt/main.go:32-41) and the test (xfmt_test.go:17-20) set a
  `BreakPrefixes` field that this `Config` does not have, so there is no
  break-prefix set, and a `- item` line has an empty prefix.
- The width is any `int`, not only a positive one.
- The non-text test is the code's byte class, including the `'Z'` quirk.
  Bytes from 0x80 on never count as non-text.

## Model

| member | source | states |
|---|---|---|
| Prefix.SkipBlanks | xfmt.go:139 | strings.TrimLeft over " \t" as a position: everything skipped is a blank, and what follows is not a blank or is the end |
| Prefix.SkipBlanksTo | xfmt.go:148 | a blank run ending at a non-blank (or the end) is skipped exactly to that point |
| Prefix.MarkerLenMarker | xfmt.go:141-147 | a marker is taken exactly when the rest of the line starts with `//` or `#`; length 2 only on `//` and length 1 only on `#`, so `//` wins over a single `/` |
| Prefix.ParseLine | xfmt.go:137-152 | the prefix followed by the content is the line itself (also main.go:126-141) |
| Prefix.ParseLineGrammar | xfmt.go:137-151 | the prefix is blanks, an optional `//` or `#`, then blanks; the content does not start with a blank, and without a marker it starts with neither `//` nor `#` |
| Prefix.ParseLineUnique | xfmt.go:137-152 | any split obeying that grammar is the one parseLine returns, so the grammar is a complete reference definition |
| Prefix.ReparseExtended | xfmt.go:137-152 | re-parsing a classified line with non-empty content, with nothing or a space and more text appended, keeps its prefix, which is what the driver relies on when it splits the gathered line again |
| Prefix.ReparseArbitraryExtension | xfmt.go:141-147 | content "/" has no prefix but "//x" moves `//` into the prefix, so stability does not hold for arbitrary extensions |
| Prefix.StartsWithNonText | xfmt.go:132-135 | true exactly when the first byte is below 0x80 and not an ASCII letter, or is 'Z'; needs non-empty input (also main.go:121-124) |
| Wrapping.Split | xfmt.go:161 | strings.Split on " ": at least one piece and no piece holds a space |
| Wrapping.JoinSplit | xfmt.go:161 | joining the pieces with single spaces gives the string back |
| Wrapping.FirstWordOfLonger | xfmt.go:161-170 | a line extended after a space keeps its first word |
| Wrapping.SplitWord | xfmt.go:161 | a space-free word is its own only piece |
| Wrapping.PackFrom | xfmt.go:159-174 | the packing loop never emits an empty segment, and yields at least one segment when the pending line is not empty |
| Wrapping.Wrap | xfmt.go:154-176 | content within the width is one segment, unchanged; longer content never yields an empty segment (also main.go:143-165) |
| Wrapping.SplitLine | xfmt.go:154-176 | content within the width comes back as the single segment `[s]`, even when empty; otherwise the result is the greedy packing Wrap (also main.go:143-165) |
| Wrapping.PackBound | xfmt.go:162-170 | every packed segment fits the width, or is the starting line, or is one input word |
| Wrapping.WrapWidth | xfmt.go:154-176 | a segment longer than the width is a single input word without a space |
| Wrapping.PackHead | xfmt.go:159-174 | the first packed segment starts with the first word of the starting line |
| Wrapping.PackGreedy | xfmt.go:162-166 | a segment is closed only when the first word of the next one does not fit after it with one space |
| Wrapping.WrapGreedy | xfmt.go:154-176 | every break of splitLine is greedy in that sense |
| Wrapping.WellSpacedWords | xfmt.go:161 | content without leading, trailing or doubled spaces has no empty word |
| Wrapping.PackJoin | xfmt.go:159-174 | with no empty word, joining the packed segments with single spaces gives the starting line followed by the words, in order |
| Wrapping.WrapJoin | xfmt.go:154-176 | for well-spaced content every segment is non-empty and the segments joined with single spaces are the content |
| Wrapping.WrapNonEmpty | xfmt.go:155-175 | content not starting with a space yields at least one segment and no empty one; empty content yields one segment when the width is not negative |
| LineSource.ChunkEnd | xfmt.go:80 | ReadString('\n') stops just past the first newline from the read position, or at the end of input, and always advances when input remains |
| LineSource.Terminated | xfmt.go:87-93 | the terminator split off a chunk is "\r\n", "\n" or "", and it is empty exactly when the chunk has no trailing newline |
| LineSource.TerminatedSplit | xfmt.go:87-93 | content followed by terminator is the chunk read, and "\n" is the terminator only when no "\r" precedes it |
| LineSource.ChunkLine | xfmt.go:80-93 | a line read is never ("", ""), its terminator is "\r\n", "\n" or "", its content holds no newline, and the terminator is empty only at the end of input |
| LineSource.SplitFrom | xfmt.go:80 | repeated reads from a position give no more lines than characters are left, since each read takes at least one |
| LineSource.SplitFromShape | xfmt.go:80-93 | every line read from a position on has that shape, and only the last can lack a terminator |
| LineSource.SplitLinesShape | xfmt.go:80-93 | the same for the whole input |
| LineSource.SplitFromRoundTrip | xfmt.go:80-93 | the lines read from a position, put back together, are the rest of the input |
| LineSource.SplitLinesRoundTrip | xfmt.go:80-93 | the lines read, put back together, are the whole input |
| Gathering.GatherFrom | xfmt.go:105-130 | the gathering loop leaves a suffix of its lines unread, consumes at least one line when it starts with empty content, and returns its accumulator when no line is left |
| Gathering.Gather | xfmt.go:105-130 | gatherLine leaves a suffix of the lines unread and takes at least one line whenever one is left |
| Gathering.GatherNotSentinel | xfmt.go:109-127 | once a real line is taken the paragraph is never the ("", "") sentinel |
| Gathering.GatherSentinelIff | xfmt.go:109-130 | gatherLine returns the sentinel exactly when no line remains (also main.go:94-119) |
| Gathering.GatherReparses | xfmt.go:117-129 | re-parsing prefix plus content of the accumulated paragraph recovers the same prefix and content |
| Gathering.GatherPrefixStable | xfmt.go:121-129 | the logical line gatherLine returns parses back into the paragraph's own prefix and content |
| Gathering.RunLength | xfmt.go:118 | the run of joining lines is no longer than the lines |
| Gathering.RunLengthMaximal | xfmt.go:118 | every line in the run has the paragraph's prefix, non-empty content and a text first byte, and the line after the run does not |
| Gathering.CollectRest | xfmt.go:109-127 | collecting leaves exactly the lines after the run |
| Gathering.CollectContent | xfmt.go:121-125 | collecting keeps the prefix and terminator and appends each run line's content after exactly one space |
| Gathering.CollectRun | xfmt.go:109-127 | both together |
| Gathering.GatherFromStarted | xfmt.go:114-125 | from a started paragraph the loop is the reference collector |
| Gathering.GatherFromBlank | xfmt.go:114-125 | from empty content the loop is the reference gatherer: empty-content lines are skipped while more follow, and the next line replaces prefix and terminator |
| Gathering.GatherMatchesReference | xfmt.go:105-130 | gatherLine agrees with the two-phase reference gatherer on every input |
| Gathering.Parser.constructor | main.go:38 | the parser starts unbuffered at the beginning of its input, with all its lines pending |
| Gathering.Parser.PeekLine | xfmt.go:75-95 | a buffered line is returned without reading; otherwise one chunk is read and split; ("", "") is returned exactly when nothing remains; the pending lines are unchanged (also main.go:64-84) |
| Gathering.Parser.ConsumeLine | xfmt.go:97-103 | on a non-empty buffer, empties it and drops the first pending line (also main.go:86-92) |
| Gathering.Parser.GatherLine | xfmt.go:105-130 | returns prefix plus content and the terminator of the gathered paragraph, leaves the lines gathering left, returns the sentinel exactly at end of input, and consumes a line otherwise (also main.go:94-119) |
| Xfmt.FormatParagraph | xfmt.go:53-58 | each logical line is written with the prefix gatherLine found and the terminator of its first line with content, or of the last line taken when none has content |
| Xfmt.EmitEmptyIff | xfmt.go:54-58 | the text written for a logical line is empty exactly when every segment, written with its prefix and terminator, is empty |
| Xfmt.FormatLines | xfmt.go:48-59 | for a non-negative width, lines that were read always produce some output |
| Xfmt.FormatText | xfmt.go:48-60 | for a non-negative width the output of Format is empty exactly when the input is |
| Xfmt.Formatter.constructor | xfmt.go:18-22 | a formatter over the input with the given configuration and an empty output buffer |
| Xfmt.Formatter.Write | xfmt.go:70-73 | write appends the text to the output |
| Xfmt.Formatter.WriteSegments | xfmt.go:54-58 | the inner loop appends prefix, segment and terminator for each segment in order |
| Xfmt.Formatter.Format | xfmt.go:48-60 | format drains the parser and appends the output for all pending lines |
| Xfmt.Format | xfmt.go:17-24 | Format returns FormatText of the whole input |
| Cli.WriteSegments | main.go:46-50 | the inner loop of main appends prefix, segment and terminator for each segment in order |
| Cli.Run | main.go:38-51 | main writes FormatText of its standard input with the given width |
| Scenarios.ReadsThreeLines | xfmt.go:80-93 | "a\n\nb\n" is read as three lines, the middle one blank |
| Scenarios.ParsePlain | xfmt.go:137-152 | a line starting with neither a blank nor a marker has an empty prefix |
| Scenarios.GatherStopsAtBlank | xfmt.go:118-120 | a started paragraph stops at a blank line, which stays unread |
| Scenarios.GatherAbsorbsBlank | xfmt.go:114-125 | after a blank line the next line starts the paragraph, so the blank line is not written |
| Scenarios.GatherTrailingBlank | xfmt.go:109-129 | a blank line at the end of input is a logical line of its own, not the sentinel |
| Scenarios.PlainTextJoins | xfmt.go:118 | a line starting with a lower-case letter joins a paragraph without prefix, such as a `- item` line |
| Scenarios.ItemNeverJoins | xfmt.go:118 | a line starting with '-', '*' or a digit never joins the paragraph before it |
| Scenarios.UpperZIsNotText | xfmt.go:134 | 'Z' counts as non-text while 'Y' and 'z' do not |

## Left out

- I/O errors are not modelled: reads and writes are total operations on sequences. This covers `check`, the `panic`/`recover` unwinding (xfmt.go:34-46, 64-68), `log.Fatalf` (main.go:33-35, 52-55, 70-72) and the bufio buffering and `Flush` (xfmt.go:60).
- Xfmt.Format returns the written text instead of writing to an `io.Writer`. Cli.Run takes standard input as a string and returns standard output.
- Flag parsing, usage and process exit in `main` (main.go:16-28) are not modelled. The width, whose flag defaults to 80, is a parameter of Cli.Run.
- cmd/xfmt/main.go and its `BreakPrefixes` are not part of this model. That field does not exist in `Config`.
- xfmt_test.go is not part of this model: its golden files under testdata are not part of it either, and its failing reader and writer only exercise I/O errors.
- Xfmt.Formatter keeps the lookahead buffer in the `Parser` object it holds, not in fields of its own. The buffer behaves the same as the formatter's `curLine`/`curLineend`.
- Gathering.Parser.ConsumeLine requires a non-empty buffer where the source panics with "bad". Every caller meets this.
- Prefix.StartsWithNonText requires non-empty input, where indexing an empty string would panic. Its only caller checks the content first.
- Prefix.ReparseExtended covers only a classified line with non-empty content, extended by nothing or by text that starts with a space. Empty content is excluded because "//" parses to ("//", "") while "// x" parses to ("// ", "x"). The general claim that any extension of non-empty content keeps the prefix is false, as Prefix.ReparseArbitraryExtension shows. The gatherer only ever extends non-empty content, by a space and more content.
- Xfmt.FormatText promises output for non-empty input only when the width is not negative. Under a negative width, a blank line wraps to no segment and writes nothing.
- Xfmt.FormatLines promises output for lines that were read only when the width is not negative, for the same reason.
- Gathering.Parser.Pending and Gathering.Parser.Valid are ghost: the pending lines are a specification view of the reader, not state of the source.
