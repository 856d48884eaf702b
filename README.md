# markdansi layout core, in Dafny

markdansi renders Markdown as text for a terminal. This project models its deterministic
string and layout logic and proves properties of it:

- **the word wrappers.** The newer `src/wrap.ts` does greedy wrapping with an orphan-word
  lookback and trims trailing whitespace. The older `src/wrap.js` is plain greedy and lossless.
  Both have a `wrapWithPrefix` that splits on hard newlines and prefixes every line.
- **the layout parts of the renderer `src/render.js`** with colour off, where every style is
  the identity:
  - option resolution;
  - horizontal rules;
  - list items and lists;
  - inline text and links;
  - code-block geometry;
  - table column widths, their shrink loop, rows, cells and borders.
- **the live redraw frame generator `src/live.ts`**, a class holding `previousLines` and
  `cursorHidden`. Each frame is built from CUU (ECMA-48 section 8.3.22), carriage returns and
  EL (ECMA-48 section 8.3.41), optionally bracketed by the synchronized-output markers of DEC
  private mode 2026.
- **the two command-line parsers**, `parseArgs` of `src/cli.ts` and of `src/cli.js`, and the
  options `src/cli.ts` builds for rendering.
- **the `strip` option overrides** of `src/index.ts` and `src/index.js`.
- **the OSC 8 hyperlink formatter `osc8`** of `src/hyperlink.ts` and `src/hyperlink.js`.

Text is `seq<char>`. The visible width of a string is its length: every string here is taken
to be escape-free and made of single-column characters. JavaScript's `\s` is the ECMAScript
whitespace and line-terminator set (`Text.IsSpace`), and `\b` is a change between word and
non-word characters (`Text.IsWordChar`).

Code whose source is a loop over mutable state is a `method` with loop invariants, proved
equal to a specification function. The function's properties are proved as lemmas. The
modules are:

- `Text`, `Tokens`: strings, words and whitespace runs;
- `Orphan`, `WrapTs`, `WrapJs`: the wrappers;
- `Options`, `Code`, `Cells`, `Table`, `List`, `Inline`, `Hyperlink`: the renderer;
- `Live`: the frame generator;
- `CliTs`, `CliJs`: the command-line parsers.

## Model

| member | source | states |
|---|---|---|
| Text.Split | src/wrap.ts:75-78 | `s.split(c)`: at least one part, no part holds `c`, the parts joined by `c` give `s` back, and there is one more part than there are `c` in `s` |
| Text.TrimEnd | src/wrap.ts:22 | `trimEndSpaces`: a prefix of the input, only whitespace removed, and the result does not end in whitespace |
| Text.TrimStart | src/wrap.ts:40 | `replace(/^\s+/, "")`: a suffix of the input, only whitespace removed, and the result does not start with whitespace |
| Text.SlicePrefix | src/render.js:442 | `slice(0, end)`: a prefix of the string, `end` long when `0 <= end <= length`, the whole string when `end` is larger, and `length + end` long (at least 0) when `end` is negative |
| Text.PadStart | src/render.js:248 | `padStart(n, " ")`: the string right-aligned in at least `n` columns, preceded by U+0020 spaces only |
| Text.AfterEqualsMeaning | src/cli.ts:32 | `a.split("=")[1]` is undefined exactly when `a` has no `=`; otherwise it is the text after the first `=`, up to the next `=` or the end |
| Text.IntValueOf | src/render.js:204 | the decimal text of an integer, with its minus sign, reads back as that integer |
| Text.DecimalRoundTrip | src/render.js:204 | text in the form `String(i)` writes (an optional minus, digits without a leading zero, never `-0`) is the text of its own value, so that form and the value pin each other down |
| Tokens.Runs | src/wrap.ts:17 | `split(/(\s+)/)` without empty strings: the pieces join back into the text, are non-empty, and alternate between whitespace and non-whitespace runs |
| Tokens.RunsAlternate | src/wrap.js:14 | every piece of the split is one run, and neighbouring pieces are of different kinds |
| Orphan.FindPhraseSound | src/wrap.ts:26-30 | a preposition-and-article tail found at the end of the line is a real match, and its text is the two words joined by one space |
| Orphan.FindPhraseComplete | src/wrap.ts:26-30 | every match of a listed preposition, whitespace and a listed article at the end of the line is found, with that start and text |
| Orphan.FindSingleComplete | src/wrap.ts:33-34 | every listed single function word at the end of the line is found |
| Orphan.PhraseAtEnd | src/wrap.ts:26-30 | with a word boundary that needs whitespace before it, the phrase rule looks only at the last two words of the line |
| Orphan.SingleAtEnd | src/wrap.ts:33-34 | with the same boundary, the single-word rule looks only at the last word |
| Orphan.OrphanSplitWords | src/wrap.ts:41-50 | the corrected orphan split happens exactly when the line ends in one or two carried words and some word is left before them; the base keeps the other words, and the tail is the carried words joined by one space |
| Orphan.OrphanSplitKeepsWords | src/wrap.ts:41-50 | the corrected split loses no word: the words of the base and of the tail are the words of the line, and the tail holds one or two words |
| Orphan.AsWrittenKeepsLetter | src/wrap.ts:43-46 | as written, `"g with  a"` is cut at the length of the rebuilt tail `"with a"`, so the base keeps the letter `w` and the words change; the corrected split keeps `g` alone |
| Orphan.AsWrittenSplitsToken | src/wrap.ts:26-33 | as written, `\b` matches after punctuation, so a token such as `x-the` is split into `x-` and `the`; the corrected split leaves it whole |
| WrapTs.WrapText | src/wrap.ts:15-67 | the loop computes `Wrapped`, the left fold of the per-run step over the runs; wrap off or width at most 0 gives `[text]`; the result is never empty and `""` gives `[""]`; when wrapping, the words of the lines are the words of the text in order, every line has no trailing whitespace and fits, and every line after the first starts with a word. It uses the corrected orphan split (see Findings) |
| WrapTs.FoldKeepsLines | src/wrap.ts:47-58 | a pushed line is never changed or removed by the later steps |
| WrapTs.FoldFitting | src/wrap.ts:37-61 | runs whose trimmed text fits after the current line are all appended to it: no break happens while the line can still take them |
| WrapTs.FillThenBreak | src/wrap.ts:37-58 | after the runs that fit, a word that does not fit breaks the line: the trimmed line is pushed and the word starts the next one, or, when the line ends in an orphan tail, the base is pushed and the next line starts as the tail, a space and the word |
| WrapTs.FitsOnOneLine | src/wrap.ts:15-67 | a text whose trimmed width fits is one line, the text without its trailing whitespace |
| WrapTs.InnerWidth | src/wrap.ts:77 | `max(1, width - visibleWidth(prefix))` |
| WrapTs.WrapWithPrefix | src/wrap.ts:69-83 | every line starts with the prefix; wrap off gives one line per `\n` segment; wrap on gives, after the prefix, exactly the lines of each `\n` segment wrapped on its own by `wrapText` at `max(1, width - visibleWidth(prefix))`, segment after segment; so at least one line per segment, the words of the text in order, and every body trimmed and fitting the inner width |
| WrapTs.HardBreak | src/wrap.ts:78-81 | a hard newline always ends a line: the text before it is wrapped on its own, and the text after it starts a new line |
| WrapTs.OneSegment | src/wrap.ts:78-81 | text without a newline is wrapped exactly as `wrapText` wraps it |
| WrapJs.WrapText | src/wrap.js:12-35 | the loop computes `Wrapped`, the left fold of the per-run step over the runs; wrap off or width at most 0 gives `[text]`; never empty, and `""` gives `[""]`; the lines join back into the text; a break falls only between a whitespace run and the word after it; everything up to each line's last word fits unless the line is one word; and every line is filled as far as it goes: each line and the first word of the next together exceed the width |
| WrapJs.WrapRuns | src/wrap.js:19-30 | the `for` loop over the runs leaves exactly the pushed lines and the current line of the fold |
| WrapJs.WrapWithPrefix | src/wrap.js:37-46 | every line starts with the prefix; wrap off gives exactly the `\n` segments; wrap on gives, after the prefix, exactly the lines of each `\n` segment wrapped on its own by `wrapText` at `max(1, width - visibleWidth(prefix))`, segment after segment; so at least one line per segment, the bodies joining into the text without its newlines, and each body fitting the inner width |
| WrapJs.HardBreak | src/wrap.js:41-44 | a hard newline always ends a line: the text before it is wrapped on its own, and the text after it starts a new line |
| WrapJs.OneSegment | src/wrap.js:41-44 | text without a newline is wrapped exactly as `wrapText` wraps it |
| WrapJs.ConcatSplitDropsNewlines | src/wrap.js:41 | the `\n` segments joined together are the text without its newlines |
| Options.ResolveOptions | src/render.js:8-60 | every field the caller gives is kept (hyperlinks only while colour is on) and every missing one takes its default: wrap on, colour from the terminal, hyperlinks when colour is on and the terminal supports them, list indent 2, quote prefix `"│ "`, padding 1, not dense, no truncation, ellipsis `"…"`, code box on, no gutter, no code wrapping; hyperlinks are never on while colour is off; a missing or empty border name becomes `"unicode"`; without a width, wrapping takes the terminal's width, and there is a width exactly when wrapping |
| Options.Defaults | src/render.js:9-41 | no options resolve to: wrap on, the terminal's width or 80, colour and links from the terminal, list indent 2, quote prefix `"│ "`, border `"unicode"`, padding 1, not dense, no truncation, ellipsis `"…"`, code box on, no gutter, no code wrapping |
| Options.StripTs | src/index.ts:14-22 | `strip` forces colour and hyperlinks off, sets `wrap` to true only when it was not given, and leaves every other option as the caller gave it |
| Options.StripJs | src/index.js:5-11 | `strip` forces colour and hyperlinks off and leaves every other option, `wrap` included, as the caller gave it |
| Options.StripVersionsAgree | src/index.js:5-11 | both versions of `strip` resolve to the same options, with colour and hyperlinks off |
| Code.RenderHr | src/render.js:155-161 | a rule of `—` and a newline, 40 columns wide unless a narrower wrapping width is set; a negative wrapping width fails, as `repeat` does |
| Code.ContentLines | src/render.js:241-250 | one line per code line; without the gutter each is the line itself; with it, the line number right-aligned with U+0020 spaces to the digit count of the line count, a space, and the line |
| Code.MaxWidth | src/render.js:257 | the width of the widest line, or 0 |
| Code.TopLang | src/render.js:261-263 | no language gives no label; otherwise `[`, the language, then `] ` |
| Code.MakeBox | src/render.js:258-273 | the box always exists, because the rule is never narrower than the language label, so no `repeat` count is negative; the top border opens with `┌ ` and closes with `┐`, the bottom one runs from `└` to `┘`, and there is one body line per code line, each between `│ ` and ` │` |
| Code.BoxGeometry | src/render.js:256-275 | top and bottom are both `h + 3` wide, with `h` the larger of the inner width and the label; the label sits in the top; one body line per code line, each 4 wider than the larger of `h` and the line, and holding the line after the left border; without code wrapping each body line is one wider than the borders |
| Code.RenderCodeBlock | src/render.js:238-276 | never fails; without a box and gutter, the code then an empty line; without a box but with the gutter, the numbered lines joined by newlines, then an empty line; with a box, the top border, the body lines, the bottom border, each ending in a newline, then an empty line |
| Code.PlainBlockLines | src/render.js:240-253 | without a box the block, split at newlines, gives back one line per code line: the line itself without the gutter, the line behind its right-aligned number with it; then an empty line |
| Code.BlockFrame | src/render.js:252-275 | every block ends with an empty line, and a boxed one starts with `┌ ` and ends with `┘` and the empty line |
| Cells.PadCell | src/render.js:446-457 | a cell not narrower than the column is returned unchanged; otherwise it becomes exactly the column's width with U+0020 spaces only: before it when right-aligned, `floor(pad/2)` before and the rest after when centred, after it otherwise |
| Cells.PadCellWords | src/render.js:446-457 | padding adds and removes no word |
| Cells.TruncateCell | src/render.js:440-444 | a cell that fits is unchanged; a width at most the ellipsis length gives `ellipsis.slice(0, width)`; otherwise the cell's first characters then the whole ellipsis, exactly `width` wide; for a width that is not negative the result never exceeds it |
| Table.ColCount | src/render.js:341 | the length of the longest row |
| Table.ColWidthBounds | src/render.js:342-353 | each column width is between 1 and 40, at least the capped width of every cell in its column, and equal to one of them unless it is 1 |
| Table.ColumnWidths | src/render.js:342-353 | the `widths` array the fill loop leaves is the column widths |
| Table.FirstMax | src/render.js:360 | `widths.indexOf(Math.max(...widths))`: the first index holding the largest width |
| Table.ShrinkBounds | src/render.js:358-364 | shrinking keeps the column count and lowers no width below 1, and raises none |
| Table.ShrinkAmount | src/render.js:358-364 | shrinking removes at most `over` in total, and exactly `over` unless every column is down to 1 |
| Table.ShrinkFits | src/render.js:355-365 | a table wider than the terminal shrinks to exactly its width, or to all columns 1 and no narrower than the terminal |
| Table.Shrink | src/render.js:358-364 | the in-place `while` loop leaves the array equal to the shrink specification |
| Table.FinalWidthsBounds | src/render.js:342-365 | the final widths are between 1 and 40; a table that had to shrink is the terminal's width unless every column is 1 |
| Table.FitWidths | src/render.js:342-365 | the fill and shrink phases together give the final widths, one per column, each between 1 and 40 |
| Table.Height | src/render.js:384 | the row height is the most lines in any column |
| Table.RenderRow | src/render.js:367-396 | each column holds its cell's text exactly as `wrapText` breaks it at the column's width less both paddings (at `MAX_SAFE_INTEGER` with wrapping off), losslessly, each line padded to the column; the row has as many lines as its tallest column, one part per column, shorter columns continuing with blank `padCell("")` parts |
| Table.HLine | src/render.js:414-417 | a rule over at least one column is `sum(widths) + colCount + 1` characters plus its newline; it opens with its left corner |
| Table.RulesAgree | src/render.js:413-421 | the top, middle and bottom rules have the same length; any border name but `ascii` draws the unicode corners |
| Table.Assemble | src/render.js:406-437 | `none` gives the rows, parts joined by a spaced bar, and an empty line; otherwise top rule, header rows, the middle rule unless dense, body rows, bottom rule, empty line |
| Table.RenderHeader | src/render.js:398-401 | the header lines are the header cells laid out at the widths: each cell truncated or padded, broken into lines by `wrapText` at its column's inner width, each line padded in its column, one part per cell on each line, as many lines as the tallest column, shorter columns continued with blank parts |
| Table.RenderBody | src/render.js:402-404 | `rows.flatMap(renderRow)`: the body lines are, row after row in order, each row's cells laid out at the widths as for the header, every cell broken by `wrapText` at its column's inner width |
| Table.RenderRows | src/render.js:398-404 | the header is laid out, then the body, at the same widths and alignments, every cell broken by `wrapText` at its column's inner width |
| Table.RenderTable | src/render.js:335-438 | the widths are the final widths between 1 and 40; the header and each body row, in order, are laid out at those widths, every cell broken by `wrapText` at its column's inner width; `none` gives those lines, parts joined by a spaced bar, then an empty line; any other border gives the top rule, the header lines, the middle rule unless dense, the body lines, the bottom rule and an empty line |
| List.Bullet | src/render.js:204-217 | a task item gets a three-character box `[x]` when checked and `[ ]` when not; an ordered item gets `start + idx` written in decimal as `String` writes it (its value read back is `start + idx`, and by `Text.DecimalRoundTrip` no other text has that form and value), then a dot; any other item gets `-` |
| List.DropBlankSuffix | src/render.js:211-213 | dropping leading blank lines leaves a suffix of the content, and every line dropped is blank |
| List.Content | src/render.js:205-213 | the content lines of an item keep its words, start with a non-blank line, and hold no newline |
| List.ContentSuffix | src/render.js:205-213 | the content lines are the newline split of the trimmed text from its first non-blank line on: every line dropped in front is blank |
| List.ListItem | src/render.js:194-236 | an item fails exactly when its indent is negative, or a negative `listIndent` would indent later lines |
| List.ListItemLayout | src/render.js:217-235 | one output line per content line, plus an empty one for a loose list; the first gets the indent, the bullet and a space; later lines get `listIndent×(indentLevel+1)` spaces; each line loses its own leading whitespace |
| List.ListItemWords | src/render.js:194-236 | the item's words are the bullet's words then the content's, with no bullet when there is no content |
| List.RenderListItem | src/render.js:194-236 | the `shift` and `forEach` loops compute the item specification |
| List.ShiftBlank | src/render.js:211-213 | the `shift` loop drops exactly the leading blank lines |
| List.RenderList | src/render.js:178-192 | a list fails exactly when one of its items does, a loose list gives at least one line per item, and the lines are item 0's, then item 1's, and so on, item `k` rendered at index `k`, so numbered `start + k` |
| Inline.RenderLink | src/render.js:320-333 | an empty label shows the url; with hyperlinks on and a url, the output is `osc8(url, label)`, which reads back as url and label when the url holds no BEL; otherwise the label, then ` (url)` when the url is set and differs from the label |
| Inline.RenderInline | src/render.js:278-318 | the loop appends each node's text in order |
| Inline.NoEscapeWithoutLinks | src/render.js:278-318 | with hyperlinks off, text without escapes renders without escapes |
| Inline.StripHasNoHyperlinks | src/index.ts:14-22 | under the options `strip` gives, inline text free of escapes renders with no escape, so with no OSC 8 sequence |
| Hyperlink.Osc8 | src/hyperlink.ts:17-19 | the hyperlink is 12 characters longer than the url and the text together |
| Hyperlink.Osc8Layout | src/hyperlink.ts:17-19 | the link starts with `ESC ]8;;`, the url and BEL, holds the text verbatim next, and ends with the closer `ESC ]8;; BEL` with an empty url |
| Hyperlink.Osc8RoundTrip | src/hyperlink.js:7-9 | a url without BEL and any text are read back from the link |
| Hyperlink.ParseOsc8Sound | src/hyperlink.js:7-9 | whatever reads back as a link is exactly that link |
| Hyperlink.Osc8Injective | src/hyperlink.ts:17-19 | for urls without BEL, two links are equal only when their urls and texts are |
| Live.CursorUp | src/live.ts:33-36 | `cursorUp(n)` is empty exactly when `n <= 0`; otherwise `ESC [`, the decimal digits of `n`, and `A` |
| Live.FrameLines | src/live.ts:51-59 | one line per newline of the frame text, a missing final newline counted once; no line holds a newline, and the lines rejoined are the frame text with its final newline |
| Live.FrameNewlines | src/live.ts:62-77 | a frame holds exactly `max(previousLines, newLines)` newlines, one per cleared row |
| Live.FrameHides | src/live.ts:63-66 | a frame starts with the hide-cursor sequence exactly when it hides the cursor |
| Live.FrameSynchronized | src/live.ts:68-77 | with synchronized output the frame, after any hide-cursor sequence, opens with BSU and ends with ESU; without it, it ends in the last row's newline or the carriage return |
| Live.BuildFrame | src/live.ts:62-77 | the loop builds the frame specification |
| Live.LiveRenderer.constructor | src/live.ts:43-48 | synchronized output and cursor hiding are on unless explicitly false; nothing is written yet, no lines, cursor shown |
| Live.LiveRenderer.Render | src/live.ts:50-81 | one write per call: the frame for the previous line count, which hides the cursor when hiding is on and it is not hidden yet; then `previousLines` is the new line count and the cursor is hidden exactly when hiding is on |
| Live.LiveRenderer.Finish | src/live.ts:83-88 | writes the show-cursor sequence only when the cursor is hidden, then marks it shown; so a second `finish` writes nothing |
| CliTs.FieldOf | src/cli.ts:22-67 | an argument is a flag exactly when it is one of the recognised spellings |
| CliTs.ApplyUsed | src/cli.ts:36-66 | a value flag uses up the argument after it too; every other argument only itself |
| CliTs.ApplyFrame | src/cli.ts:22-67 | an argument changes at most the one field it is a flag for, and an unrecognised one changes nothing |
| CliTs.NoSwitches | src/cli.ts:22-24 | `--no-wrap`, `--no-color` and `--no-links` set their fields to false |
| CliTs.CodeSwitches | src/cli.ts:25-30 | each `--code-…=true/false` sets its field to that value |
| CliTs.TableSwitches | src/cli.ts:33-35 | `--table-dense` sets `tableDense`, and `--table-truncate=true/false` sets `tableTruncate` to that value |
| CliTs.HelpSwitches | src/cli.ts:67 | `--help` and `-h` set `help` |
| CliTs.ApplyValue | src/cli.ts:36-66 | a value flag sets its field to the next argument when that is not empty, and otherwise changes nothing |
| CliTs.ApplyEquals | src/cli.ts:31-32 | `--table-border=…` sets the border to the text after the first `=`; `--theme=…` sets the theme the same way unless that text is empty |
| CliTs.ValueFlagSteps | src/cli.ts:36-43 | `--table-padding` and `--table-ellipsis` take the next argument when it is not empty, and use it up either way |
| CliTs.FileValueFlagSteps | src/cli.ts:44-55 | the same for `--in`, `--out` and `--width` |
| CliTs.LateValueFlagSteps | src/cli.ts:59-66 | the same for `--list-indent` and `--quote-prefix` |
| CliTs.ParseArgs | src/cli.ts:17-70 | the loop, with its index advanced by the body, computes the parse specification |
| CliTs.ApplyFlag | src/cli.ts:21-67 | the `if` chain does what the argument's flag does, and skips the next argument exactly for a value flag |
| CliTs.ParseSkipsFirstTwo | src/cli.ts:19 | `argv[0]` and `argv[1]` are never read |
| CliTs.WalkAppend | src/cli.ts:19-68 | parsing two runs of arguments one after the other is parsing the first, then the second |
| CliTs.LaterValueWins | src/cli.ts:36-66 | a value flag given again with a non-empty value overrides the earlier value and nothing else |
| CliTs.TrailingValueFlag | src/cli.ts:36-66 | a value flag as the last argument changes nothing |
| CliTs.UnknownIgnored | src/cli.ts:21-67 | an unrecognised argument is ignored wherever it stands, and so is an empty one |
| CliTs.RenderOptionsStep | src/cli.ts:104-114 | only `wrap`, `width`, `color`, `hyperlinks`, `theme`, `listIndent` and `quotePrefix` reach the render options: any other flag leaves them unchanged |
| CliTs.BorderApply | src/cli.ts:31-32 | `--table-border=v`, for a `v` without `=`, sets exactly the border to `v` |
| CliTs.TableBorderDropped | src/cli.ts:104-114 | as written, `--table-border=v` is parsed but the render options do not change |
| CliTs.TableBorderReaches | src/cli.ts:104-114 | with every parsed option passed on, the border given reaches the render options |
| CliJs.JsFieldOf | src/cli.js:10-16 | an argument is a flag exactly when it is one of the seven recognised spellings |
| CliJs.ParseArgs | src/cli.js:6-19 | the loop, with `argv[++i]`, computes the parse specification |
| CliJs.JsApplyUsed | src/cli.js:13-15 | `--in`, `--out` and `--width` use up the argument after them too |
| CliJs.JsSkipsFirstTwo | src/cli.js:8 | parsing starts at index 2 |
| CliJs.JsWalkAppend | src/cli.js:8-17 | parsing two runs of arguments one after the other is parsing the first, then the second |
| CliJs.TrailingValueFlagJs | src/cli.js:13-15 | a trailing `--in` or `--out` reads `undefined`, and a trailing `--width` gives `NaN` |
| CliJs.LaterValueWinsJs | src/cli.js:13-15 | the last value given to a flag is kept, even an empty one |
| CliJs.ThemeJs | src/cli.js:16 | `--theme=v`, for a `v` without `=`, sets the theme to `v`, even when empty |
| CliJs.UnknownIgnoredJs | src/cli.js:9-17 | an unrecognised argument is ignored wherever it stands |

## Left out

- The bodies of `stringWidth` and `stripAnsi`. Visible width is length over escape-free, single-column text.
- JavaScript strings count UTF-16 units, and the model counts characters. The two agree on the Basic Multilingual Plane.
- The styler and the themes. With colour off every style is the identity, which is the only path modelled, so theme merging (`src/render.js:20-30`) has no effect there.
- The highlighter callback. Code lines are taken as they are.
- The Markdown parser, and the block dispatcher (`renderNode`, paragraphs, headings, block quotes). A list item takes its already rendered children as text. A table takes its cells' rendered text.
- The terminal probes (`process.stdout.columns`, `isTTY`, `hyperlinkSupported`). They are a `Terminal` parameter.
- `Number()` in the parsers. In `CliTs` it is a parameter `number: string -> int`. In `CliJs` a width keeps the argument's text, or is `NaN` when the argument is missing.
- File and stream I/O, `main`, `process.exit` and the `-` stdin convention.
- The `EPIPE` handling, and `src/cli.js` running `main()` on import.
- A border name that is a key of `Object.prototype` (such as `constructor`). `TABLE_BOX[name]` then yields a function rather than a box. The model treats every name but `ascii` as unicode.
- A `RangeError` from `repeat` with a negative count, such as a negative width or list indent. It is modelled as failure (`None`), not as an exception.
- The help text of `src/cli.ts` lists `--theme NAME` and `--table-border STR` with a space. The parser accepts only the `=` form, and the model follows the parser.
- WrapTs.WrapText: models the corrected orphan split (`Orphan.OrphanSplit`), not `src/wrap.ts:43-46` as written. The as-written split is `Orphan.OrphanSplitAsWritten`, and the Findings lemmas show where the two differ.
- WrapTs.WrapText: a line wider than the width is stated over the lines only as holding at most three words. Which words it holds, one word or an orphan tail plus one word, is stated on the fold by `WrapTs.FillThenBreak`.
- Code.RuleWidth: with code wrapping on, the rule is stated only to be as wide as the widest line or the wrapping width.
- CliTs.ApplyFlag: that every switch sets exactly the value its spelling names is proved literal by literal (`NoSwitches`, `CodeSwitches`, `TableSwitches`, `HelpSwitches`). There is no single lemma over all switches.
- Concurrency and interleaved writes in the live renderer. Each call is one atomic step.

## Findings

| source | as written | input that shows it | evidently intended | confidence | as-written member | corrected member |
|---|---|---|---|---|---|---|
| src/wrap.ts:43-46 | the orphan tail is rebuilt with one space, but the line is cut at the rebuilt tail's length | `"go with  a friend"` at width 10 gives `["go w", "with a friend"]` | the base is the line before the matched tail, `["go", "with a friend"]` | not executed | Orphan.AsWrittenKeepsLetter | Orphan.OrphanSplitKeepsWords |
| src/wrap.ts:26-33 | `\b` also matches after punctuation, so the tail can start inside a token | `"x-the yy"` at width 4 gives `["x-", "the yy"]` | breaks only on whitespace: `["x-the", "yy"]` | not executed | Orphan.AsWrittenSplitsToken | Orphan.OrphanSplitWords |
| src/cli.ts:104-114 | the render options take only seven parsed fields; the table and code flags the help text lists are parsed and then dropped | `--table-border=ascii` renders with unicode borders | every parsed rendering option reaches `render` | not executed | CliTs.TableBorderDropped | CliTs.TableBorderReaches |
