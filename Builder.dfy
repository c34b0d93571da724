/** `build_story` (docs/generate_pdf.py) as the program runs it: the story
    list, the three buffers and the table flag are the fields of a builder,
    each nested `flush_*` closure is a method that updates them in place, and
    the line loop calls `AddLine` once per line.  Each method is proved to
    move the fields exactly as the matching function of `Story` says. */
module Builder {
  import opened Inline
  import opened LineSyntax
  import opened Story
  import opened StoryProperties
  import opened StoryTables

  class StoryBuilder {
    /** The inline converter every text goes through. */
    const conv: string -> string
    var story: seq<Block>
    var listBuffer: seq<string>
    var orderedListBuffer: seq<string>
    var tableBuffer: seq<string>
    var isInTable: bool

    /** The fields, as the loop state of `Story`. */
    function Snapshot(): State
      reads this
    {
      State(story, listBuffer, orderedListBuffer, tableBuffer, isInTable)
    }

    constructor (conv: string -> string)
      ensures this.conv == conv && Snapshot() == Start
    {
      this.conv := conv;
      story := [];
      listBuffer := [];
      orderedListBuffer := [];
      tableBuffer := [];
      isInTable := false;
    }

    /** `flush_unordered_list` */
    method FlushUnorderedList()
      modifies this
      ensures Snapshot() == FlushBullets(conv, old(Snapshot()))
    {
      if listBuffer == [] {
        return;
      }
      var items := ConvertAll(conv, listBuffer);
      story := story + [Bullets(items)];
      story := story + [Spacer(8)];
      listBuffer := [];
    }

    /** `flush_ordered_list` */
    method FlushOrderedList()
      modifies this
      ensures Snapshot() == FlushOrdered(conv, old(Snapshot()))
    {
      if orderedListBuffer == [] {
        return;
      }
      var items := Enumerate(ConvertAll(conv, orderedListBuffer));
      story := story + [Ordered(items)];
      story := story + [Spacer(8)];
      orderedListBuffer := [];
    }

    /** `flush_table` */
    method FlushTable()
      modifies this
      ensures Snapshot() == Story.FlushTable(old(Snapshot()))
    {
      if tableBuffer == [] {
        return;
      }
      var data := TableData(tableBuffer);
      story := story + [Table(data)];
      story := story + [Spacer(12)];
      tableBuffer := [];
      isInTable := false;
    }

    /** One pass of the loop body of `build_story`. */
    method AddLine(raw: string)
      modifies this
      ensures Snapshot() == Step(conv, old(Snapshot()), raw)
    {
      var line := LineOf(raw);
      AddClassified(line, Classify(line));
    }

    /** The branch of the loop body for a line of kind `k`. */
    method AddClassified(line: string, k: LineKind)
      modifies this
      ensures Snapshot() == StepKind(conv, old(Snapshot()), line, k)
    {
      if k.BlankLine? || k.RuleLine? || k.HeadingLine? {
        AddSectionLine(line, k);
      } else if k.BulletLine? || k.OrderedLine? || k.TableLine? {
        AddBufferedLine(line, k);
      } else {
        AddTextLine(line, k);
      }
    }

    /** A blank line, a rule or a heading: all three buffers are flushed. */
    method AddSectionLine(line: string, k: LineKind)
      requires k.BlankLine? || k.RuleLine? || k.HeadingLine?
      modifies this
      ensures Snapshot() == StepKind(conv, old(Snapshot()), line, k)
    {
      FlushUnorderedList();
      FlushOrderedList();
      FlushTable();
      match k
      case BlankLine =>
      case RuleLine =>
        story := story + [Spacer(12)];
      case HeadingLine(level, title) =>
        story := story + [Heading(level, conv(title))];
        if level == 1 {
          story := story + [Spacer(12)];
        }
    }

    /** A list item or a table row: the line joins its buffer after the
        other buffers are flushed. */
    method AddBufferedLine(line: string, k: LineKind)
      requires k.BulletLine? || k.OrderedLine? || k.TableLine?
      modifies this
      ensures Snapshot() == StepKind(conv, old(Snapshot()), line, k)
    {
      match k
      case BulletLine(item) =>
        FlushOrderedList();
        FlushTable();
        listBuffer := listBuffer + [item];
      case OrderedLine(item) =>
        FlushUnorderedList();
        FlushTable();
        orderedListBuffer := orderedListBuffer + [item];
      case TableLine =>
        FlushUnorderedList();
        FlushOrderedList();
        tableBuffer := tableBuffer + [line];
        isInTable := true;
    }

    /** A quote, a page break or a paragraph: only the table is flushed. */
    method AddTextLine(line: string, k: LineKind)
      requires k.QuoteLine? || k.PageBreakLine? || k.ParagraphLine?
      modifies this
      ensures Snapshot() == StepKind(conv, old(Snapshot()), line, k)
    {
      match k
      case QuoteLine(text) =>
        FlushTable();
        story := story + [Quote(conv(text))];
      case PageBreakLine =>
        if isInTable {
          FlushTable();
        }
        story := story + [PageBreak];
      case ParagraphLine =>
        if isInTable {
          FlushTable();
        }
        story := story + [Body(conv(line))];
    }
  }

  /** `build_story(lines)`: every line through the loop body, then the three
      final flushes.  The story is the one `StoryOf` describes, every block
      in it is well formed, and its bullet lists (its ordered lists) hold the
      converted items of the bullet (ordered) lines, each once and in order. */
  method BuildStory(lines: seq<string>) returns (story: seq<Block>)
    ensures story == StoryOf(lines)
    ensures WellFormed(story)
    ensures Listed(story, false) == ConvertAll(ConvertInline, ItemsOf(lines, false))
    ensures Listed(story, true) == ConvertAll(ConvertInline, ItemsOf(lines, true))
    ensures |TablesIn(story)| == |TableRuns(lines)|
    ensures forall i :: 0 <= i < |TableRuns(lines)| ==> TablesIn(story)[i] == TableData(TableRuns(lines)[i])
  {
    var b := new StoryBuilder(ConvertInline);
    for i := 0 to |lines|
      invariant b.conv == ConvertInline
      invariant b.Snapshot() == Run(ConvertInline, lines[..i])
    {
      b.AddLine(lines[i]);
      assert lines[..i + 1][..i] == lines[..i];
    }
    assert lines[..|lines|] == lines;
    b.FlushUnorderedList();
    b.FlushOrderedList();
    b.FlushTable();
    story := b.story;
    StoryWellFormed(ConvertInline, lines);
    StoryListsEveryItem(ConvertInline, lines, false);
    StoryListsEveryItem(ConvertInline, lines, true);
    StoryTablesEveryRun(ConvertInline, lines);
  }
}
