/** What `build_story` (docs/generate_pdf.py) computes, as functions: the
    blocks of the story, the state the line loop carries (the story so far,
    the three buffers and the table flag), the three flushes, one step per
    line and the run over all lines.

    Every text that reaches a heading, quote, paragraph or list item goes
    through the inline converter `conv`; `StoryOf` passes `convert_inline`
    (`Inline.ConvertInline`).  Keeping the converter a parameter lets the
    structural lemmas hold whatever the converter does. */
module Story {
  import opened Text
  import opened Inline
  import opened LineSyntax

  /** One flowable of the story.  Text is the markup `convert_inline`
      produced; table cells are kept as they are. */
  datatype Block =
    | Heading(level: nat, text: string)
    | Body(text: string)
    | Quote(text: string)
    | Bullets(items: seq<string>)
    | Ordered(entries: seq<Entry>)
    | Table(rows: seq<seq<string>>)
    | Spacer(height: nat)
    | PageBreak

  /** One item of an ordered list: its number and its converted text. */
  datatype Entry = Entry(number: nat, text: string)

  /** The variables of `build_story`'s loop. */
  datatype State = State(
    story: seq<Block>,
    bullets: seq<string>,
    ordered: seq<string>,
    table: seq<string>,
    inTable: bool)

  const Start: State := State([], [], [], [], false)

  /** At most one buffer holds lines, the table flag says whether the table
      buffer does, and every buffered table line has a `|`. */
  predicate Inv(st: State) {
    && (st.bullets != [] ==> st.ordered == [] && st.table == [])
    && (st.ordered != [] ==> st.table == [])
    && (st.inTable <==> st.table != [])
    && (forall i :: 0 <= i < |st.table| ==> '|' in st.table[i])
  }

  // ----- flushing the buffers -----

  /** `convert_inline` applied to every item. */
  function ConvertAll(conv: string -> string, items: seq<string>): seq<string> {
    if items == [] then []
    else ConvertAll(conv, items[..|items| - 1]) + [conv(items[|items| - 1])]
  }

  /** Converted texts paired with their positions counted from 1, as the
      numbers of an ordered list. */
  function Enumerate(texts: seq<string>): seq<Entry> {
    if texts == [] then []
    else Enumerate(texts[..|texts| - 1]) + [Entry(|texts|, texts[|texts| - 1])]
  }

  function FlushBullets(conv: string -> string, st: State): State {
    if st.bullets == [] then st
    else st.(story := st.story + [Bullets(ConvertAll(conv, st.bullets)), Spacer(8)], bullets := [])
  }

  function FlushOrdered(conv: string -> string, st: State): State {
    if st.ordered == [] then st
    else st.(story := st.story + [Ordered(Enumerate(ConvertAll(conv, st.ordered))), Spacer(8)], ordered := [])
  }

  /** The cells of one table line: outer whitespace and bars removed, split
      on `|`, each cell stripped. */
  function TableRow(line: string): seq<string> {
    StripCells(Split(TrimEnd(TrimStart(Strip(line), IsBar), IsBar), '|'))
  }

  /** `[cell.strip() for cell in parts]` */
  function StripCells(parts: seq<string>): seq<string> {
    if parts == [] then [] else [Strip(parts[0])] + StripCells(parts[1..])
  }

  /** The rows of the buffered lines that are not blank. */
  function TableRows(lines: seq<string>): seq<seq<string>> {
    if lines == [] then []
    else (if Strip(lines[0]) != [] then [TableRow(lines[0])] else []) + TableRows(lines[1..])
  }

  /** The cell texts that mark a separator row, as the source lists them
      (`"---".ljust(3, "-")` is `"---"` again, and `" : "` is listed twice). */
  const SeparatorCells: set<string> := {"---", "-", " :", ": ", " : ", ":-", "-:", ":-:"}

  predicate IsSeparatorRow(cells: seq<string>) {
    forall c :: c in cells ==> c in SeparatorCells
  }

  /** The rows of a flushed table: the second row is dropped when it is a
      separator row. */
  function TableData(lines: seq<string>): seq<seq<string>> {
    var rows := TableRows(lines);
    if |rows| >= 2 && IsSeparatorRow(rows[1]) then [rows[0]] + rows[2..] else rows
  }

  function FlushTable(st: State): State {
    if st.table == [] then st
    else st.(story := st.story + [Table(TableData(st.table)), Spacer(12)], table := [], inTable := false)
  }

  function FlushAll(conv: string -> string, st: State): State {
    FlushTable(FlushOrdered(conv, FlushBullets(conv, st)))
  }

  function Emit(st: State, blocks: seq<Block>): State {
    st.(story := st.story + blocks)
  }

  // ----- one line -----

  /** `raw_line.rstrip("\n")` */
  function LineOf(raw: string): string {
    TrimEnd(raw, IsNewline)
  }

  /** The step for a line of kind `k`. */
  function StepKind(conv: string -> string, st: State, line: string, k: LineKind): State {
    match k
    case BlankLine => FlushAll(conv, st)
    case RuleLine => Emit(FlushAll(conv, st), [Spacer(12)])
    case HeadingLine(level, title) =>
      Emit(FlushAll(conv, st),
           if level == 1 then [Heading(1, conv(title)), Spacer(12)]
           else [Heading(level, conv(title))])
    case QuoteLine(text) => Emit(FlushTable(st), [Quote(conv(text))])
    case BulletLine(item) =>
      var s1 := FlushTable(FlushOrdered(conv, st));
      s1.(bullets := s1.bullets + [item])
    case OrderedLine(item) =>
      var s1 := FlushTable(FlushBullets(conv, st));
      s1.(ordered := s1.ordered + [item])
    case TableLine =>
      var s1 := FlushOrdered(conv, FlushBullets(conv, st));
      s1.(table := s1.table + [line], inTable := true)
    case PageBreakLine =>
      Emit(if st.inTable then FlushTable(st) else st, [PageBreak])
    case ParagraphLine =>
      Emit(if st.inTable then FlushTable(st) else st, [Body(conv(line))])
  }

  /** One pass of the loop body. */
  function Step(conv: string -> string, st: State, raw: string): State {
    var line := LineOf(raw);
    StepKind(conv, st, line, Classify(line))
  }

  /** The loop over the first `|lines|` lines. */
  function Run(conv: string -> string, lines: seq<string>): State {
    if lines == [] then Start
    else Step(conv, Run(conv, lines[..|lines| - 1]), lines[|lines| - 1])
  }

  /** The loop and the final flush, with converter `conv`. */
  function StoryWith(conv: string -> string, lines: seq<string>): seq<Block> {
    FlushAll(conv, Run(conv, lines)).story
  }

  /** `build_story(lines)` */
  function StoryOf(lines: seq<string>): seq<Block> {
    StoryWith(ConvertInline, lines)
  }
}
