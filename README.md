# Markdown-to-story converter of `docs/generate_pdf.py`

`docs/generate_pdf.py` turns a Markdown file into a PDF. Its core is made of two
functions.

- `build_story` reads the file line by line. It classifies each line in a fixed
  order: blank, rule, heading (`# `, `## `, `### `), quote, bullet item, ordered
  item, table row, `pagebreak`, and otherwise paragraph. Bullet items, ordered
  items and table rows wait in three buffers. The buffers are flushed into the
  "story" (the list of blocks the PDF is made of) when a line of another kind
  arrives, and once more at the end.
- `convert_inline` rewrites code spans, bold and italic into a small tag
  vocabulary, escapes the whole string as XML and restores the six tags.

This project models both and proves what they guarantee.

- `Text`: the Python string operations the script uses. These are `strip`,
  `lstrip`, `rstrip`, `split`, `replace`, `startswith` and `lower`, on
  sequences of Unicode scalar values.
- `Markup`: `xml.sax.saxutils.escape`, and the grammar of the output. Output is
  plain characters, the three entities `&amp;` `&lt;` `&gt;` and the six tags
  `<b>` `</b>` `<i>` `</i>` `<font face="Courier">` `</font>`.
- `Inline`: the three substitutions as hand-written matchers for their regular
  expressions (including the look-behind and look-ahead of the italic one),
  then `ConvertInline` itself.
- `LineSyntax`: the two list-item regular expressions as matchers, and
  `Classify`, which tells which branch of the loop a line takes.
- `Story`: the loop as functions over a `State`. The state holds the story,
  the three buffers and the table flag. It has one function per flush, `Step`
  for one line, `Run` for the loop and `StoryOf` for the whole call.
  - Blocks are a datatype instead of ReportLab objects.
  - The inline converter is a parameter `conv`, and `StoryOf` passes
    `ConvertInline`. The structural facts therefore hold for any converter.
- `TableProperties`: how `flush_table` turns buffered lines into rows and when
  it drops the separator row.
- `StoryTables`: the tables of the story, one per maximal run of consecutive
  table lines.
- `StoryProperties`: the properties of the loop.
  - The buffer invariant: at most one buffer is non-empty, and the table flag
    is set exactly when the table buffer is non-empty.
  - The final flush empties every buffer.
  - Every bullet line and every ordered line lands in exactly one list, in
    order.
  - Ordered lists are renumbered from 1.
  - Every emitted block is well formed.
- `Builder`: `build_story` as the program runs it.
  - The class `StoryBuilder` has the story, the buffers and the flag as fields.
  - The nested flush functions are methods that update those fields in place.
  - `BuildStory` runs the `for` loop.
  - Every method is proved to move the fields exactly as the matching `Story`
    function says.

Behaviour of the code that the proofs make explicit:

- A quote, a paragraph or a `pagebreak` line does not flush a pending list. A
  list interrupted by one of them is therefore emitted after it
  (`QuoteInsideList`, `ParagraphInsideList`).
- The text inside a code, bold or italic span is escaped twice. It is escaped
  once by the span's replacement function and again with the whole line, so
  `&` inside a code span comes out as `&amp;amp;` (`CodeSpanDoubleEscape`).
- The italic substitution runs after the code substitution and also looks inside
  the font tags it wrote. A code span `` `*w*` `` therefore comes out in italics,
  not as `*w*` in Courier (`CodeSpanItalicised`).
- The bold substitution escapes the text between `**` and `**`, and that text
  can hold the font tags the code substitution has just written. In a line
  ``**`w`**`` the font tags are escaped twice and no restoration matches them,
  so the PDF shows `&lt;font face="Courier"&gt;` and `&lt;/font&gt;` as bold
  text and `w` is not set in Courier (`BoldAroundCode`).
- The output's tags need not be balanced. In ``**a `b** c` `` the code span
  runs from the inner backtick to the last one, and the bold span then takes
  the open font tag, escaped, into its text. The line comes out as
  `<b>a &amp;lt;font face="Courier"&amp;gt;b</b> c</font>`, whose `</font>`
  closes nothing (`CodeAcrossBold`).
- The separator set of `flush_table` lists `" :"`, `": "` and `" : "`. Cells
  are stripped before the comparison, so these entries can never match
  (`SpacedSeparatorsUnreachable`).
  - A second row counts as a separator only when every cell is `---`, `-`,
    `:-`, `-:` or `:-:`.
  - A row such as `|----|` or `|:---:|` is therefore kept as data.
- The numbers written in front of ordered items are discarded. Each flushed
  list is numbered 1, 2, ... (`OrderedDigitsIgnored`, `EnumerateSpec`).

## Model

| member | source | states |
|---|---|---|
| Text.Replace | docs/generate_pdf.py:46-49 | `str.replace`: every occurrence of the pattern, from the left and without overlap, is replaced |
| Text.TrimStartSpec | docs/generate_pdf.py:157 | `lstrip` drops a prefix made only of the given characters and stops at the first character it keeps |
| Text.TrimEndSpec | docs/generate_pdf.py:118 | `rstrip` drops a suffix made only of the given characters and stops at the last character it keeps |
| Text.StripSpec | docs/generate_pdf.py:40 | `strip()` returns a contiguous part of the input that neither begins nor ends with whitespace, with only whitespace around it |
| Text.StripEmpty | docs/generate_pdf.py:120 | `strip()` is empty exactly when the string is all whitespace |
| Text.StripIdempotent | docs/generate_pdf.py:157 | stripping an already stripped string changes nothing |
| Text.StripAbsent | docs/generate_pdf.py:165 | `strip()` brings in no character the string lacks |
| Text.StripAround | docs/generate_pdf.py:40 | `strip()` of text around a piece that neither begins nor ends with whitespace only trims the two outer parts |
| Text.Split | docs/generate_pdf.py:90 | splitting on the bar character gives at least one piece, and no piece holds the separator |
| Text.JoinSplit | docs/generate_pdf.py:90 | joining the pieces of a split with the separator gives the string back |
| Markup.Escape | docs/generate_pdf.py:44 | `escape`: `&`, `<` and `>` become `&amp;`, `&lt;` and `&gt;`, every other character is kept |
| Markup.EscapeIsChainedReplace | docs/generate_pdf.py:44 | escaping character by character equals `escape`'s three `replace` calls, `&` first |
| Markup.EscapeRemovesAngles | docs/generate_pdf.py:44 | no `<` or `>` survives escaping, and escaping brings in only the letters of the three entities |
| Markup.EscapePlain | docs/generate_pdf.py:44 | escaping leaves a string without `&`, `<` and `>` unchanged |
| Markup.MarkupEscape | docs/generate_pdf.py:44 | an escaped string is markup: plain characters and entities only |
| Markup.MarkupChars | docs/generate_pdf.py:44-49 | in markup, every `<` begins one of the six tags, every `>` ends one, and every `&` begins an entity |
| Markup.ReplaceKeepsMarkup | docs/generate_pdf.py:46-49 | replacing an escaped tag by the tag keeps a string markup |
| Markup.ReplaceAroundIn | docs/generate_pdf.py:46-49 | replacing a `&lt;` pattern in text without `&` around two escaped tags with escaped text between them changes each tag exactly when it is the pattern and keeps everything else |
| Inline.ConvertInline | docs/generate_pdf.py:28-50 | `convert_inline`: strip, the code, bold and italic substitutions in that order, escape, then the six restorations |
| Inline.SubCode | docs/generate_pdf.py:41 | the code substitution: each leftmost backtick pair around at least one other character becomes the escaped inside between the Courier font tags |
| Inline.SubBold | docs/generate_pdf.py:42 | the bold substitution: each leftmost `**` pair around at least one non-`*` character becomes the escaped inside between `<b>` and `</b>` |
| Inline.SubItalic | docs/generate_pdf.py:43 | the italic substitution: a `*` not after a `*`, at least one non-`*` character, and a `*` not before a `*` become the escaped inside between `<i>` and `</i>` |
| Inline.RestoreTags | docs/generate_pdf.py:46-49 | the six `replace` calls, in the source's order, that turn the escaped tags back into tags |
| Inline.IndexOf | docs/generate_pdf.py:23-25 | the first position of a character, or none exactly when the character is absent (how far `[^*]+` and ``[^`]+`` reach) |
| Inline.EscapedTags | docs/generate_pdf.py:46-49 | escaping each of the six tags gives exactly the pattern its `replace` call looks for |
| Inline.SubCodeNoTick | docs/generate_pdf.py:41 | the code substitution leaves text without a backtick unchanged |
| Inline.SubBoldNoStarPair | docs/generate_pdf.py:42 | the bold substitution leaves text without two adjacent asterisks unchanged |
| Inline.SubItalicNoStar | docs/generate_pdf.py:43 | the italic substitution leaves text without an asterisk unchanged |
| Inline.SubCodePlain | docs/generate_pdf.py:41 | the code substitution copies text without a backtick and carries on with what follows |
| Inline.SubBoldPlain | docs/generate_pdf.py:42 | the bold substitution copies text without `*` and carries on with what follows |
| Inline.SubItalicPlain | docs/generate_pdf.py:43 | the italic substitution copies non-empty text without `*` and carries on after it with the look-behind clear |
| Inline.SubCodeIn | docs/generate_pdf.py:41 | in ``p`w`z`` with no backtick in `p` or `w`, the span becomes escaped `w` between the Courier font tags, `p` is kept, and the substitution goes on over `z` |
| Inline.SubBoldIn | docs/generate_pdf.py:42 | in `p**w**z` with no `*` in `p` or `w`, the span becomes escaped `w` between `<b>` and `</b>`, `p` is kept, and the substitution goes on over `z` |
| Inline.SubItalicIn | docs/generate_pdf.py:43 | in `p*w*z` with no `*` in `p` or `w` and `z` not starting with `*`, the span becomes escaped `w` between `<i>` and `</i>`, `p` is kept, and the substitution goes on over `z` with the look-behind seeing the closing `*` |
| Inline.RestoreTagsNoAmp | docs/generate_pdf.py:46-49 | the six restorations leave a string without `&` unchanged |
| Inline.RestoreSpan | docs/generate_pdf.py:46-49 | the escaped forms of two consecutive tags of the list around escaped text, amid text without `&`, come back as the two tags, with everything else kept |
| Inline.ConvertInlineIsMarkup | docs/generate_pdf.py:28-50 | the output of `convert_inline` is markup over the six tags and three entities |
| Inline.ConvertInlineTagSafe | docs/generate_pdf.py:44-49 | every `<` of the output begins one of the six tags, every `>` ends one, and every `&` begins `&amp;`, `&lt;` or `&gt;` |
| Inline.ConvertInlinePlain | docs/generate_pdf.py:40-50 | text with none of `` ` `` `*` `&` `<` `>` comes out stripped and otherwise unchanged |
| Inline.ConvertCodeSpanIn | docs/generate_pdf.py:28-50 | a code span amid plain text comes out as its text, escaped twice, between the Courier font tags; the text before and after is kept, stripped only at the ends of the line |
| Inline.ConvertBoldSpanIn | docs/generate_pdf.py:28-50 | a bold span amid plain text comes out as its text, escaped twice, between `<b>` and `</b>`; the text around it is kept, stripped only at the ends of the line |
| Inline.ConvertItalicSpanIn | docs/generate_pdf.py:28-50 | an italic span amid plain text comes out as its text, escaped twice, between `<i>` and `</i>`; the text around it is kept, stripped only at the ends of the line |
| Inline.ConvertCodeLine | docs/generate_pdf.py:28-50 | a line that is one code span whose text holds no `*` comes out as its text, escaped twice, between the Courier font tags |
| Inline.CodeSpanItalicised | docs/generate_pdf.py:28-50 | a line `` `*w*` ``, with `w` non-empty and holding none of `` ` `` `*` `&` `<` `>`, comes out as `w` between `<i>` and `</i>` inside the Courier font tags: the italic substitution reaches into the code span |
| Inline.BoldAroundCode | docs/generate_pdf.py:28-50 | a line ``**`w`**``, with `w` as above, comes out as `<b>`, the Courier font tags around `w` escaped twice, and `</b>`, with no `<` between the bold tags: the font tags are text, not markup |
| Inline.CodeAcrossBold | docs/generate_pdf.py:28-50 | a line ``**x `y** z` ``, with `x`, `y` and `z` holding none of `` ` `` `*` `&` `<` `>`, comes out as `<b>`, `x` with the Courier open tag and `y` escaped twice, `</b>`, `z` and a closing `</font>` that no open tag matches |
| Inline.StagedStep | docs/generate_pdf.py:46-49 | one restoration turns every escaped tag whose turn it is into the tag and leaves the other tags, restored or not, and texts whose `&` all begin `&amp;` as they are |
| Inline.RestorePieces | docs/generate_pdf.py:46-49 | escaped tags among such texts all come back out of the six restorations as the tags, with the texts kept |
| Inline.CodeSpanDoubleEscape | docs/generate_pdf.py:32-44 | in a line `` `p&q` ``, with `p` and `q` holding none of `` ` `` `*` `&` `<` `>`, the `&` comes out as `&amp;amp;`, with `p` and `q` kept, between the Courier font tags |
| LineSyntax.Classify | docs/generate_pdf.py:117-190 | which branch of the loop a line takes, tested in the source's order: blank, rule, heading, quote, bullet, ordered, table, `pagebreak`, paragraph, with the text each branch uses |
| LineSyntax.MatchBullet | docs/generate_pdf.py:161 | `re.match(r"[-*] +(.+)", stripped)`, giving the group |
| LineSyntax.MatchOrdered | docs/generate_pdf.py:168 | `re.match(r"\d+[.)] +(.+)", stripped)`, giving the group |
| LineSyntax.MatchItemTail | docs/generate_pdf.py:161-168 | ` +(.+)` at a given position, with the greedy space run giving one space back when nothing else follows |
| LineSyntax.SpaceRunSpec | docs/generate_pdf.py:161 | the greedy ` +` run: all spaces, and stopped by a non-space or the end |
| LineSyntax.DigitRunSpec | docs/generate_pdf.py:168 | the greedy `\d+` run: all digits, and stopped by a non-digit or the end |
| LineSyntax.LineEnd | docs/generate_pdf.py:161 | where `.+` must stop: the first newline or the end of the string |
| LineSyntax.MatchItemTailMatches | docs/generate_pdf.py:161 | the item-tail matcher finds a group exactly when ` +(.+)` can match there |
| LineSyntax.MatchItemTailText | docs/generate_pdf.py:161-165 | the stripped group is the rest of the line after the marker, stripped, and it holds no newline |
| LineSyntax.OrderedDigitsIgnored | docs/generate_pdf.py:168-172 | any two non-empty digit runs in front of the same rest give the same ordered item |
| LineSyntax.ClassifyBlank | docs/generate_pdf.py:120 | a line takes the blank branch exactly when it is all whitespace |
| LineSyntax.ClassifyHeading | docs/generate_pdf.py:133-153 | a heading line is `# `, `## ` or `### ` followed by its title, at level 1, 2 or 3 |
| LineSyntax.ClassifyTable | docs/generate_pdf.py:175 | only a line with a bar character takes the table branch |
| LineSyntax.ClassifyBulletItem | docs/generate_pdf.py:161-165 | a bullet item is the stripped rest of the stripped line after `-` or `*`, up to the first newline |
| LineSyntax.ClassifyOrderedItem | docs/generate_pdf.py:168-172 | an ordered item is the stripped rest of the stripped line after its digits and `.` or `)`, up to the first newline |
| TableProperties.BarLineNotBlank | docs/generate_pdf.py:92 | a line with a bar character is never blank, so the `if row.strip()` filter keeps it |
| TableProperties.TableRowsOfBarLines | docs/generate_pdf.py:89-93 | when every buffered line has a bar character, each line gives exactly one row, in order |
| TableProperties.TableRowsAtMost | docs/generate_pdf.py:89-93 | no buffered line gives more than one row |
| TableProperties.TableRowCells | docs/generate_pdf.py:90 | every row has a cell, and no cell holds a bar character or begins or ends with whitespace |
| TableProperties.SpacedSeparatorsUnreachable | docs/generate_pdf.py:94 | a stripped cell is in the separator set exactly when it is `---`, `-`, `:-`, `-:` or `:-:` |
| TableProperties.SeparatorRowOfCells | docs/generate_pdf.py:94 | a row is a separator row exactly when every cell is one of those five |
| TableProperties.TableDataDropsSeparator | docs/generate_pdf.py:94-98 | the header is kept, and exactly one row goes, the second, exactly when there are two rows or more and the second is a separator row; otherwise every row is kept |
| TableProperties.TableDataNonEmpty | docs/generate_pdf.py:99 | a flushed table has a first row with a cell, so `len(data[0])` exists |
| Story.FlushBullets | docs/generate_pdf.py:67-74 | `flush_unordered_list`: a non-empty buffer becomes a list of converted items and an 8-point spacer, and the buffer empties |
| Story.FlushOrdered | docs/generate_pdf.py:76-83 | `flush_ordered_list`: the same, with the items numbered from 1 |
| Story.FlushTable | docs/generate_pdf.py:85-115 | `flush_table`: a non-empty buffer becomes a table of its data rows and a 12-point spacer, the buffer empties and the flag drops |
| Story.TableRow | docs/generate_pdf.py:90 | one row: the line stripped, outer bars removed, split on the bar character, each cell stripped |
| Story.TableRows | docs/generate_pdf.py:89-93 | the rows of the buffered lines that are not blank, in order |
| Story.TableData | docs/generate_pdf.py:94-98 | the rows, without the second one when there are two or more and the second is a separator row |
| Story.LineOf | docs/generate_pdf.py:118 | `raw_line.rstrip("\n")` |
| Story.StepKind | docs/generate_pdf.py:120-190 | the loop body for a line of a given kind: which buffers it flushes, which blocks it appends, which buffer it joins |
| Story.Step | docs/generate_pdf.py:117-190 | one pass of the loop: strip the newline, classify, take that branch |
| Story.Run | docs/generate_pdf.py:117-190 | the loop over the lines from the initial state |
| Story.StoryOf | docs/generate_pdf.py:53-196 | `build_story`: the loop, the three final flushes, the story |
| StoryProperties.ClassifyFits | docs/generate_pdf.py:133-180 | headings have level 1 to 3, and table lines hold a bar character |
| StoryProperties.StepKindKeepsInv | docs/generate_pdf.py:120-190 | every branch of the loop body keeps the buffer invariant |
| StoryProperties.StepKeepsInv | docs/generate_pdf.py:117-190 | after each line at most one buffer is non-empty, and `is_in_table` is set exactly when the table buffer is non-empty |
| StoryProperties.RunKeepsInv | docs/generate_pdf.py:117-190 | the buffer invariant holds after every prefix of the input |
| StoryProperties.FinalFlushEmpties | docs/generate_pdf.py:192-194 | after the three final flushes all buffers are empty and the table flag is down |
| StoryProperties.EmptyFlushesEmitNothing | docs/generate_pdf.py:67-88 | flushing an empty buffer emits nothing and changes nothing |
| StoryProperties.ConvertAllSpec | docs/generate_pdf.py:71 | the list items are the converted buffer items, one for one, in order |
| StoryProperties.EnumerateSpec | docs/generate_pdf.py:80 | the i-th ordered item carries number i + 1 and the i-th text |
| StoryProperties.EnumerateTexts | docs/generate_pdf.py:80 | numbering keeps the texts and their order |
| StoryProperties.FlushBulletsHeld | docs/generate_pdf.py:67-74 | flushing the bullet list moves its converted items into the story, losing and adding none |
| StoryProperties.FlushOrderedListed | docs/generate_pdf.py:76-83 | flushing a non-empty ordered list appends exactly its converted items to the story's ordered items |
| StoryProperties.FlushOrderedHeld | docs/generate_pdf.py:76-83 | flushing the ordered list moves its converted items into the story, losing and adding none |
| StoryProperties.FlushTableHeld | docs/generate_pdf.py:85-115 | flushing the table adds no list items |
| StoryProperties.FlushAllHeld | docs/generate_pdf.py:192-194 | the final flush loses no list item |
| StoryProperties.StepKindHeld | docs/generate_pdf.py:120-190 | a line adds its converted item if it is a list line of the kind counted, and nothing otherwise |
| StoryProperties.RunKeepsItems | docs/generate_pdf.py:117-190 | the story and the buffer together hold the converted item of every list line read so far, each once and in order |
| StoryProperties.StoryListsEveryItem | docs/generate_pdf.py:117-196 | the bullet (ordered) lists of the story hold the converted items of all bullet (ordered) lines, each once and in input order |
| StoryProperties.FlushBulletsWellFormed | docs/generate_pdf.py:67-74 | an empty buffer leaves the story as it is; otherwise the story is kept and gains a bullet list with one item per buffered line, then an 8-point spacer; the story stays well formed |
| StoryProperties.FlushOrderedWellFormed | docs/generate_pdf.py:76-83 | an empty buffer leaves the story as it is; otherwise the story is kept and gains an ordered list with one entry per buffered line, then an 8-point spacer; the story stays well formed, so the entries are numbered 1, 2, ... |
| StoryProperties.FlushTableWellFormed | docs/generate_pdf.py:85-115 | an empty buffer leaves the story as it is; otherwise the story is kept and gains a table, then a 12-point spacer; the story stays well formed, so the table has a first row with a cell |
| StoryProperties.StepKindWellFormed | docs/generate_pdf.py:120-190 | every branch appends only well-formed blocks |
| StoryProperties.RunWellFormed | docs/generate_pdf.py:117-190 | the story is well formed after every prefix of the input |
| StoryProperties.StoryWellFormed | docs/generate_pdf.py:53-196 | every block of the returned story is well formed: headings 1 to 3, no empty list or table, ordered lists numbered from 1, spacers of 8 or 12 points |
| StoryProperties.SectionLinesFlushAll | docs/generate_pdf.py:120-153 | a blank line, rule or heading empties all three buffers; then a blank line emits nothing, a rule one 12-point spacer, and a heading its title without the prefix, followed by a spacer only at level 1 |
| StoryProperties.TableEndsAtOtherLine | docs/generate_pdf.py:182-184 | after any line that is not a table row, the table buffer is empty and the flag is down |
| StoryProperties.ListsOutliveTextLines | docs/generate_pdf.py:155-190 | quote, `pagebreak` and paragraph lines leave both list buffers as they are |
| StoryProperties.ClassifyBulletA | docs/generate_pdf.py:161-165 | `- a` is a bullet line with item `a` |
| StoryProperties.ClassifyQuoteQ | docs/generate_pdf.py:155-157 | `> q` is a quote line with text `q` |
| StoryProperties.ClassifyOrderedA | docs/generate_pdf.py:168-172 | `1. a` is an ordered line with item `a` |
| StoryProperties.ClassifyParagraphB | docs/generate_pdf.py:190 | `b` is a paragraph line |
| StoryProperties.QuoteInsideList | docs/generate_pdf.py:155-166 | for `- a` then `> q`, the quote is emitted before the one-item bullet list |
| StoryProperties.ParagraphInsideList | docs/generate_pdf.py:168-190 | for `1. a` then `b`, the paragraph is emitted before the ordered list, which is numbered from 1 |
| StoryTables.TablesOfSpec | docs/generate_pdf.py:85-115 | one table per run, the i-th table built from the i-th run |
| StoryTables.TableRunsSpec | docs/generate_pdf.py:175-184 | every run of table lines is non-empty, holds table lines only, and the runs together are the table lines of the input, in order |
| StoryTables.TableRunsSplit | docs/generate_pdf.py:182-184 | a line that is not a table line ends the run before it: the runs of `a + [x] + b` are those of `a` followed by those of `b` |
| StoryTables.TableRunsOfTableLines | docs/generate_pdf.py:175-180 | consecutive table lines with nothing between them form a single run |
| StoryTables.FlushTableTables | docs/generate_pdf.py:85-115 | flushing a non-empty buffer adds exactly one table, built from the buffer, and flushing an empty one adds none |
| StoryTables.StepKindTables | docs/generate_pdf.py:120-190 | a table line joins the buffer and adds no table; any other line empties the buffer and adds the table of the buffer when it held lines |
| StoryTables.RunTables | docs/generate_pdf.py:117-190 | after every prefix, the story's tables are those of the closed runs and the buffer is the open run |
| StoryTables.StoryTablesEveryRun | docs/generate_pdf.py:117-196 | the story has one table per maximal run of consecutive table lines, in order, each built from its run: no table line is lost, moved or duplicated |
| Builder.StoryBuilder.constructor | docs/generate_pdf.py:61-65 | the story and the three buffers start empty and the table flag down |
| Builder.StoryBuilder.FlushUnorderedList | docs/generate_pdf.py:67-74 | the fields move exactly as `FlushBullets` says |
| Builder.StoryBuilder.FlushOrderedList | docs/generate_pdf.py:76-83 | the fields move exactly as `FlushOrdered` says |
| Builder.StoryBuilder.FlushTable | docs/generate_pdf.py:85-115 | the fields move exactly as `Story.FlushTable` says |
| Builder.StoryBuilder.AddLine | docs/generate_pdf.py:117-190 | one pass of the loop body moves the fields exactly as `Step` says |
| Builder.StoryBuilder.AddClassified | docs/generate_pdf.py:120-190 | each branch of the loop body moves the fields as `StepKind` says for that kind of line |
| Builder.StoryBuilder.AddSectionLine | docs/generate_pdf.py:120-153 | a blank line, a rule or a heading flushes all three buffers and appends what `StepKind` says for it |
| Builder.StoryBuilder.AddBufferedLine | docs/generate_pdf.py:161-180 | a bullet item, an ordered item or a table row flushes the other buffers and joins its own, as `StepKind` says |
| Builder.StoryBuilder.AddTextLine | docs/generate_pdf.py:182-190 | a page break or a paragraph flushes only a table in progress, and a quote (lines 155-159) always flushes the table, then the block is appended as `StepKind` says |
| Builder.BuildStory | docs/generate_pdf.py:53-196 | the returned story is `StoryOf(lines)`; it is well formed; its bullet and ordered lists hold the converted items of the bullet and ordered lines, each once and in order; and its tables are one per maximal run of table lines, each built from its run |

## Left out

- ReportLab styles and layout are not modelled. This covers lines 54-59, the list and item options in 71-72 and 80-81, and `colWidths` and `TableStyle` in 99-111. A `Paragraph` is modelled as its converted text and its style as the block constructor. A table is modelled as its data rows. A `Spacer` is modelled as its height.
- `generate_pdf` and the `__main__` block (lines 199-220) are left out: they read and write files and render the PDF.
- `script.js` is not part of this model. It is browser UI code: DOM updates, `fetch`, downloads, timers and the clipboard.
- Regular expressions: only the five patterns the script uses are modelled, each as a hand-written matcher. No general regex engine is modelled.
- `\d` is modelled as the ASCII digits `0`-`9`. Python's `\d` also matches other Unicode decimal digits.
- `lower()` is modelled only for the characters that lower to an ASCII letter. These are `A`-`Z` and the Kelvin sign. That is enough to decide `line.strip().lower() == "pagebreak"` exactly.
- Inline.ConvertCodeSpanIn: stated for one code span amid text without markup characters. A line with several spans or other nested markup is covered only by `ConvertInlineIsMarkup` and `ConvertInlineTagSafe`, not by an exact output; the nested lines `` `*w*` `` and ``**`w`**`` have exact outputs in `CodeSpanItalicised` and `BoldAroundCode`.
- Inline.ConvertBoldSpanIn: stated for one bold span amid text without markup characters. A line with several spans or other nested markup is covered only by `ConvertInlineIsMarkup` and `ConvertInlineTagSafe`, not by an exact output; the nested lines `` `*w*` `` and ``**`w`**`` have exact outputs in `CodeSpanItalicised` and `BoldAroundCode`.
- Inline.ConvertItalicSpanIn: stated for one italic span amid text without markup characters. A line with several spans or other nested markup is covered only by `ConvertInlineIsMarkup` and `ConvertInlineTagSafe`, not by an exact output; the nested lines `` `*w*` `` and ``**`w`**`` have exact outputs in `CodeSpanItalicised` and `BoldAroundCode`.
- Inline.ConvertCodeLine: stated for code text without `*`. A code span holding a pair of `*` is italicised inside the font tags, which `CodeSpanItalicised` states for the span `` `*w*` ``.
