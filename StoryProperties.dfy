/** What `build_story` (docs/generate_pdf.py) guarantees, proved about the
    functions of `Story`. */
module StoryProperties {
  import opened Text
  import opened LineSyntax
  import opened Story
  import opened TableProperties

  /** What the classification guarantees and the steps rely on. */
  predicate KindFits(line: string, k: LineKind) {
    && (k.HeadingLine? ==> 1 <= k.level <= 3)
    && (k == TableLine ==> '|' in line)
  }

  lemma ClassifyFits(line: string)
    ensures KindFits(line, Classify(line))
  {
    if Classify(line).HeadingLine? {
      ClassifyHeading(line);
    }
    if Classify(line) == TableLine {
      ClassifyTable(line);
    }
  }

  // ----- the buffer invariant -----

  lemma StepKindKeepsInv(conv: string -> string, st: State, line: string, k: LineKind)
    requires Inv(st) && KindFits(line, k)
    ensures Inv(StepKind(conv, st, line, k))
  {
  }

  /** After every line at most one buffer holds lines, and the table flag is
      set exactly when the table buffer holds lines. */
  lemma StepKeepsInv(conv: string -> string, st: State, raw: string)
    requires Inv(st)
    ensures Inv(Step(conv, st, raw))
  {
    ClassifyFits(LineOf(raw));
    StepKindKeepsInv(conv, st, LineOf(raw), Classify(LineOf(raw)));
  }

  lemma {:induction false} RunKeepsInv(conv: string -> string, lines: seq<string>)
    ensures Inv(Run(conv, lines))
  {
    if lines != [] {
      RunKeepsInv(conv, lines[..|lines| - 1]);
      StepKeepsInv(conv, Run(conv, lines[..|lines| - 1]), lines[|lines| - 1]);
    }
  }

  /** The final flush empties all three buffers and clears the table flag. */
  lemma FinalFlushEmpties(conv: string -> string, lines: seq<string>)
    ensures var f := FlushAll(conv, Run(conv, lines));
      f.bullets == [] && f.ordered == [] && f.table == [] && !f.inTable
  {
    RunKeepsInv(conv, lines);
  }

  // ----- every list line reaches exactly one list block -----

  /** The item texts a block lists: those of a bullet list, or those of an
      ordered list, as `numbered` says. */
  function ItemsIn(b: Block, numbered: bool): seq<string> {
    if numbered then
      (if b.Ordered? then Texts(b.entries) else [])
    else
      (if b.Bullets? then b.items else [])
  }

  function Texts(entries: seq<Entry>): seq<string> {
    if entries == [] then [] else Texts(entries[..|entries| - 1]) + [entries[|entries| - 1].text]
  }

  /** Numbering an ordered list keeps its texts and their order. */
  lemma {:induction false} EnumerateTexts(texts: seq<string>)
    ensures Texts(Enumerate(texts)) == texts
  {
    if texts != [] {
      EnumerateTexts(texts[..|texts| - 1]);
      var n := Enumerate(texts);
      assert n[..|n| - 1] == Enumerate(texts[..|texts| - 1]);
    }
  }

  /** The item texts of all bullet (or all ordered) lists of a story, in order. */
  function Listed(story: seq<Block>, numbered: bool): seq<string> {
    if story == [] then []
    else Listed(story[..|story| - 1], numbered) + ItemsIn(story[|story| - 1], numbered)
  }

  /** The item of a bullet (or ordered) line, if the line is one. */
  function ItemOfKind(k: LineKind, numbered: bool): seq<string> {
    match k
    case BulletLine(item) => if numbered then [] else [item]
    case OrderedLine(item) => if numbered then [item] else []
    case _ => []
  }

  /** The items of all bullet (or all ordered) lines, in order. */
  function ItemsOf(lines: seq<string>, numbered: bool): seq<string> {
    if lines == [] then []
    else ItemsOf(lines[..|lines| - 1], numbered) + ItemOfKind(Classify(LineOf(lines[|lines| - 1])), numbered)
  }

  lemma {:induction false} ListedAppend(a: seq<Block>, b: seq<Block>, numbered: bool)
    ensures Listed(a + b, numbered) == Listed(a, numbered) + Listed(b, numbered)
    decreases |b|
  {
    if b == [] {
      assert a + b == a;
    } else {
      var b' := b[..|b| - 1];
      assert (a + b)[..|a + b| - 1] == a + b';
      assert (a + b)[|a + b| - 1] == b[|b| - 1];
      ListedAppend(a, b', numbered);
    }
  }

  lemma ConvertAllAppend(conv: string -> string, items: seq<string>, x: string)
    ensures ConvertAll(conv, items + [x]) == ConvertAll(conv, items) + [conv(x)]
  {
    assert (items + [x])[..|items|] == items;
  }

  /** What a story and a buffer hold between them. */
  function Held(conv: string -> string, st: State, numbered: bool): seq<string> {
    Listed(st.story, numbered) + ConvertAll(conv, if numbered then st.ordered else st.bullets)
  }

  lemma ListedOfOne(b0: Block, numbered: bool)
    ensures Listed([b0], numbered) == ItemsIn(b0, numbered)
  {
    assert [b0][..0] == [];
  }

  lemma ListedOfTwo(b0: Block, b1: Block, numbered: bool)
    ensures Listed([b0, b1], numbered) == ItemsIn(b0, numbered) + ItemsIn(b1, numbered)
  {
    assert [b0, b1][..1] == [b0];
    ListedOfOne(b0, numbered);
  }

  /** Appending a list block and its spacer lists the block's items last. */
  lemma ListedAppendTwo(story: seq<Block>, b: Block, h: nat, numbered: bool)
    ensures Listed(story + [b, Spacer(h)], numbered) == Listed(story, numbered) + ItemsIn(b, numbered)
  {
    ListedAppend(story, [b, Spacer(h)], numbered);
    ListedOfTwo(b, Spacer(h), numbered);
  }

  lemma FlushBulletsHeld(conv: string -> string, st: State, numbered: bool)
    ensures Held(conv, FlushBullets(conv, st), numbered) == Held(conv, st, numbered)
  {
    if st.bullets != [] {
      ListedAppendTwo(st.story, Bullets(ConvertAll(conv, st.bullets)), 8, numbered);
    }
  }

  lemma FlushOrderedListed(conv: string -> string, st: State, numbered: bool)
    requires st.ordered != []
    ensures Listed(FlushOrdered(conv, st).story, numbered)
      == Listed(st.story, numbered) + if numbered then ConvertAll(conv, st.ordered) else []
  {
    ListedAppendTwo(st.story, Ordered(Enumerate(ConvertAll(conv, st.ordered))), 8, numbered);
    EnumerateTexts(ConvertAll(conv, st.ordered));
  }

  lemma FlushOrderedHeld(conv: string -> string, st: State, numbered: bool)
    ensures Held(conv, FlushOrdered(conv, st), numbered) == Held(conv, st, numbered)
  {
    if st.ordered != [] {
      FlushOrderedListed(conv, st, numbered);
      var f := FlushOrdered(conv, st);
      assert f.bullets == st.bullets && f.ordered == [];
      assert ConvertAll(conv, []) == [];
    }
  }

  lemma FlushTableHeld(conv: string -> string, st: State, numbered: bool)
    ensures Held(conv, FlushTable(st), numbered) == Held(conv, st, numbered)
  {
    if st.table != [] {
      ListedAppendTwo(st.story, Table(TableData(st.table)), 12, numbered);
    }
  }

  lemma FlushAllHeld(conv: string -> string, st: State, numbered: bool)
    ensures Held(conv, FlushAll(conv, st), numbered) == Held(conv, st, numbered)
  {
    FlushBulletsHeld(conv, st, numbered);
    FlushOrderedHeld(conv, FlushBullets(conv, st), numbered);
    FlushTableHeld(conv, FlushOrdered(conv, FlushBullets(conv, st)), numbered);
  }

  lemma {:induction false} ListedNone(blocks: seq<Block>, numbered: bool)
    requires forall i :: 0 <= i < |blocks| ==> !blocks[i].Bullets? && !blocks[i].Ordered?
    ensures Listed(blocks, numbered) == []
    decreases |blocks|
  {
    if blocks != [] {
      ListedNone(blocks[..|blocks| - 1], numbered);
    }
  }

  /** Emitting blocks that are not lists changes nothing that is held. */
  lemma EmitHeld(conv: string -> string, st: State, blocks: seq<Block>, numbered: bool)
    requires forall i :: 0 <= i < |blocks| ==> !blocks[i].Bullets? && !blocks[i].Ordered?
    ensures Held(conv, Emit(st, blocks), numbered) == Held(conv, st, numbered)
  {
    ListedAppend(st.story, blocks, numbered);
    ListedNone(blocks, numbered);
  }

  lemma FlushAllEmitHeld(conv: string -> string, st: State, blocks: seq<Block>, numbered: bool)
    requires forall i :: 0 <= i < |blocks| ==> !blocks[i].Bullets? && !blocks[i].Ordered?
    ensures Held(conv, Emit(FlushAll(conv, st), blocks), numbered) == Held(conv, st, numbered)
  {
    FlushAllHeld(conv, st, numbered);
    EmitHeld(conv, FlushAll(conv, st), blocks, numbered);
  }

  lemma TableEmitHeld(conv: string -> string, st: State, blocks: seq<Block>, numbered: bool)
    requires forall i :: 0 <= i < |blocks| ==> !blocks[i].Bullets? && !blocks[i].Ordered?
    ensures Held(conv, Emit(FlushTable(st), blocks), numbered) == Held(conv, st, numbered)
    ensures Held(conv, Emit(st, blocks), numbered) == Held(conv, st, numbered)
  {
    FlushTableHeld(conv, st, numbered);
    EmitHeld(conv, FlushTable(st), blocks, numbered);
    EmitHeld(conv, st, blocks, numbered);
  }

  /** A step adds to what is held exactly the converted item of a list line
      of the kind counted, and nothing for any other line. */
  lemma StepKindHeld(conv: string -> string, st: State, line: string, k: LineKind, numbered: bool)
    ensures Held(conv, StepKind(conv, st, line, k), numbered) == Held(conv, st, numbered) + ConvertAll(conv, ItemOfKind(k, numbered))
  {
    if k.BulletLine? {
      BulletStepHeld(conv, st, line, k.item, numbered);
      ListItemConverted(conv, k, numbered);
    } else if k.OrderedLine? {
      OrderedStepHeld(conv, st, line, k.item, numbered);
      ListItemConverted(conv, k, numbered);
    } else {
      OtherStepHeld(conv, st, line, k, numbered);
      ListItemConverted(conv, k, numbered);
      AppendEmpty(Held(conv, st, numbered));
    }
  }

  /** The converted item a line of kind `k` contributes. */
  lemma ListItemConverted(conv: string -> string, k: LineKind, numbered: bool)
    ensures ConvertAll(conv, ItemOfKind(k, numbered))
      == if k.BulletLine? && !numbered then [conv(k.item)]
         else if k.OrderedLine? && numbered then [conv(k.item)]
         else []
  {
    if (k.BulletLine? && !numbered) || (k.OrderedLine? && numbered) {
      ConvertOne(conv, k.item);
    }
  }

  lemma AppendEmpty(a: seq<string>)
    ensures a + [] == a
  {
  }

  lemma OtherStepHeld(conv: string -> string, st: State, line: string, k: LineKind, numbered: bool)
    requires !k.BulletLine? && !k.OrderedLine?
    ensures Held(conv, StepKind(conv, st, line, k), numbered) == Held(conv, st, numbered)
  {
    if k == BlankLine || k == RuleLine || k.HeadingLine? {
      SectionStepHeld(conv, st, line, k, numbered);
    } else if k == TableLine {
      FlushBulletsHeld(conv, st, numbered);
      FlushOrderedHeld(conv, FlushBullets(conv, st), numbered);
    } else {
      TextStepHeld(conv, st, line, k, numbered);
    }
  }

  lemma SectionStepHeld(conv: string -> string, st: State, line: string, k: LineKind, numbered: bool)
    requires k == BlankLine || k == RuleLine || k.HeadingLine?
    ensures Held(conv, StepKind(conv, st, line, k), numbered) == Held(conv, st, numbered)
  {
    match k
    case BlankLine => FlushAllHeld(conv, st, numbered);
    case RuleLine => FlushAllEmitHeld(conv, st, [Spacer(12)], numbered);
    case HeadingLine(level, title) =>
      if level == 1 {
        FlushAllEmitHeld(conv, st, [Heading(1, conv(title)), Spacer(12)], numbered);
      } else {
        FlushAllEmitHeld(conv, st, [Heading(level, conv(title))], numbered);
      }
  }

  lemma TextStepHeld(conv: string -> string, st: State, line: string, k: LineKind, numbered: bool)
    requires k.QuoteLine? || k == PageBreakLine || k == ParagraphLine
    ensures Held(conv, StepKind(conv, st, line, k), numbered) == Held(conv, st, numbered)
  {
    var b := if k.QuoteLine? then Quote(conv(k.text))
             else if k == PageBreakLine then PageBreak
             else Body(conv(line));
    var s0 := if k.QuoteLine? || st.inTable then FlushTable(st) else st;
    assert StepKind(conv, st, line, k) == Emit(s0, [b]);
    TableEmitHeld(conv, st, [b], numbered);
  }

  lemma BulletStepHeld(conv: string -> string, st: State, line: string, item: string, numbered: bool)
    ensures Held(conv, StepKind(conv, st, line, BulletLine(item)), numbered)
      == Held(conv, st, numbered) + if numbered then [] else [conv(item)]
  {
    var s1 := FlushTable(FlushOrdered(conv, st));
    FlushOrderedHeld(conv, st, numbered);
    FlushTableHeld(conv, FlushOrdered(conv, st), numbered);
    var s2 := s1.(bullets := s1.bullets + [item]);
    assert StepKind(conv, st, line, BulletLine(item)) == s2;
    if numbered {
      assert Held(conv, s2, numbered) == Held(conv, s1, numbered);
    } else {
      ConvertAllAppend(conv, s1.bullets, item);
      AppendAssoc(Listed(s1.story, numbered), ConvertAll(conv, s1.bullets), [conv(item)]);
    }
  }

  lemma OrderedStepHeld(conv: string -> string, st: State, line: string, item: string, numbered: bool)
    ensures Held(conv, StepKind(conv, st, line, OrderedLine(item)), numbered)
      == Held(conv, st, numbered) + if numbered then [conv(item)] else []
  {
    var s1 := FlushTable(FlushBullets(conv, st));
    FlushBulletsHeld(conv, st, numbered);
    FlushTableHeld(conv, FlushBullets(conv, st), numbered);
    var s2 := s1.(ordered := s1.ordered + [item]);
    assert StepKind(conv, st, line, OrderedLine(item)) == s2;
    if numbered {
      ConvertAllAppend(conv, s1.ordered, item);
      AppendAssoc(Listed(s1.story, numbered), ConvertAll(conv, s1.ordered), [conv(item)]);
    } else {
      assert Held(conv, s2, numbered) == Held(conv, s1, numbered);
    }
  }

  /** Between them, the story and the buffer hold the converted item of every
      bullet (or ordered) line read so far, each once and in order. */
  lemma {:induction false} RunKeepsItems(conv: string -> string, lines: seq<string>, numbered: bool)
    ensures Held(conv, Run(conv, lines), numbered) == ConvertAll(conv, ItemsOf(lines, numbered))
  {
    if lines == [] {
      assert ConvertAll(conv, []) == [];
    } else {
      var prefix := lines[..|lines| - 1];
      var line := LineOf(lines[|lines| - 1]);
      RunKeepsItems(conv, prefix, numbered);
      StepKindHeld(conv, Run(conv, prefix), line, Classify(line), numbered);
      ConvertAllConcat(conv, ItemsOf(prefix, numbered), ItemOfKind(Classify(line), numbered));
    }
  }

  lemma ConvertAllConcat(conv: string -> string, a: seq<string>, b: seq<string>)
    requires |b| <= 1
    ensures ConvertAll(conv, a + b) == ConvertAll(conv, a) + ConvertAll(conv, b)
  {
    if b == [] {
      assert a + b == a;
    } else {
      ConvertAllAppend(conv, a, b[0]);
      assert [b[0]][..0] == [];
    }
  }

  /** Every bullet line and every ordered line contributes its converted
      text to exactly one emitted list, in input order. */
  lemma StoryListsEveryItem(conv: string -> string, lines: seq<string>, numbered: bool)
    ensures Listed(StoryWith(conv, lines), numbered) == ConvertAll(conv, ItemsOf(lines, numbered))
  {
    RunKeepsItems(conv, lines, numbered);
    FinalFlushEmpties(conv, lines);
    FlushAllHeld(conv, Run(conv, lines), numbered);
    assert ConvertAll(conv, []) == [];
  }

  // ----- what each list holds -----

  /** Converting a list converts every item and keeps their order. */
  lemma {:induction false} ConvertAllSpec(conv: string -> string, items: seq<string>)
    ensures |ConvertAll(conv, items)| == |items|
    ensures forall i :: 0 <= i < |items| ==> ConvertAll(conv, items)[i] == conv(items[i])
  {
    if items != [] {
      ConvertAllSpec(conv, items[..|items| - 1]);
    }
  }

  /** `enumerate` from 1: the i-th entry carries number i + 1 and the i-th text. */
  lemma {:induction false} EnumerateSpec(texts: seq<string>)
    ensures |Enumerate(texts)| == |texts|
    ensures forall i :: 0 <= i < |texts| ==> Enumerate(texts)[i] == Entry(i + 1, texts[i])
  {
    if texts != [] {
      EnumerateSpec(texts[..|texts| - 1]);
    }
  }

  // ----- the shape of every block -----

  /** Headings have level 1 to 3, lists are non-empty and ordered lists are
      numbered 1, 2, ..., tables have a first row with a cell, and spacers
      are 8 or 12 points high. */
  predicate WellFormedBlock(b: Block) {
    match b
    case Heading(level, _) => 1 <= level <= 3
    case Bullets(items) => items != []
    case Ordered(entries) =>
      entries != [] && forall i :: 0 <= i < |entries| ==> entries[i].number == i + 1
    case Table(rows) => rows != [] && rows[0] != []
    case Spacer(h) => h == 8 || h == 12
    case _ => true
  }

  predicate WellFormed(story: seq<Block>) {
    forall i :: 0 <= i < |story| ==> WellFormedBlock(story[i])
  }

  lemma WellFormedAppend(a: seq<Block>, b: seq<Block>)
    requires WellFormed(a) && WellFormed(b)
    ensures WellFormed(a + b)
  {
    forall i | 0 <= i < |a + b|
      ensures WellFormedBlock((a + b)[i])
    {
      if i >= |a| {
        assert (a + b)[i] == b[i - |a|];
      }
    }
  }

  lemma FlushBulletsWellFormed(conv: string -> string, st: State)
    requires WellFormed(st.story)
    ensures WellFormed(FlushBullets(conv, st).story)
    ensures st.bullets == [] ==> FlushBullets(conv, st).story == st.story
    ensures st.bullets != [] ==> var s := FlushBullets(conv, st).story;
      |s| == |st.story| + 2 && s[..|st.story|] == st.story
        && s[|st.story|].Bullets? && |s[|st.story|].items| == |st.bullets|
        && s[|st.story| + 1] == Spacer(8)
  {
    if st.bullets != [] {
      ConvertAllSpec(conv, st.bullets);
      WellFormedAppend(st.story, [Bullets(ConvertAll(conv, st.bullets)), Spacer(8)]);
    }
  }

  lemma FlushOrderedWellFormed(conv: string -> string, st: State)
    requires WellFormed(st.story)
    ensures WellFormed(FlushOrdered(conv, st).story)
    ensures st.ordered == [] ==> FlushOrdered(conv, st).story == st.story
    ensures st.ordered != [] ==> var s := FlushOrdered(conv, st).story;
      |s| == |st.story| + 2 && s[..|st.story|] == st.story
        && s[|st.story|].Ordered? && |s[|st.story|].entries| == |st.ordered|
        && s[|st.story| + 1] == Spacer(8)
  {
    if st.ordered != [] {
      var texts := ConvertAll(conv, st.ordered);
      ConvertAllSpec(conv, st.ordered);
      EnumerateSpec(texts);
      var entries := Enumerate(texts);
      assert forall i :: 0 <= i < |entries| ==> entries[i].number == i + 1;
      WellFormedAppend(st.story, [Ordered(entries), Spacer(8)]);
    }
  }

  lemma FlushTableWellFormed(st: State)
    requires WellFormed(st.story)
    requires forall i :: 0 <= i < |st.table| ==> '|' in st.table[i]
    ensures WellFormed(FlushTable(st).story)
    ensures st.table == [] ==> FlushTable(st).story == st.story
    ensures st.table != [] ==> var s := FlushTable(st).story;
      |s| == |st.story| + 2 && s[..|st.story|] == st.story
        && s[|st.story|].Table? && s[|st.story| + 1] == Spacer(12)
  {
    if st.table != [] {
      TableDataNonEmpty(st.table);
      WellFormedAppend(st.story, [Table(TableData(st.table)), Spacer(12)]);
    }
  }

  lemma FlushAllWellFormed(conv: string -> string, st: State)
    requires WellFormed(st.story) && Inv(st)
    ensures WellFormed(FlushAll(conv, st).story)
  {
    FlushBulletsWellFormed(conv, st);
    FlushOrderedWellFormed(conv, FlushBullets(conv, st));
    FlushTableWellFormed(FlushOrdered(conv, FlushBullets(conv, st)));
  }

  lemma StepKindWellFormed(conv: string -> string, st: State, line: string, k: LineKind)
    requires WellFormed(st.story) && Inv(st) && KindFits(line, k)
    ensures WellFormed(StepKind(conv, st, line, k).story)
  {
    match k
    case BlankLine => FlushAllWellFormed(conv, st);
    case RuleLine =>
      FlushAllWellFormed(conv, st);
      WellFormedAppend(FlushAll(conv, st).story, [Spacer(12)]);
    case HeadingLine(level, title) =>
      FlushAllWellFormed(conv, st);
      if level == 1 {
        WellFormedAppend(FlushAll(conv, st).story, [Heading(1, conv(title)), Spacer(12)]);
      } else {
        WellFormedAppend(FlushAll(conv, st).story, [Heading(level, conv(title))]);
      }
    case QuoteLine(text) =>
      FlushTableWellFormed(st);
      WellFormedAppend(FlushTable(st).story, [Quote(conv(text))]);
    case BulletLine(_) =>
      FlushOrderedWellFormed(conv, st);
      FlushTableWellFormed(FlushOrdered(conv, st));
    case OrderedLine(_) =>
      FlushBulletsWellFormed(conv, st);
      FlushTableWellFormed(FlushBullets(conv, st));
    case TableLine =>
      FlushBulletsWellFormed(conv, st);
      FlushOrderedWellFormed(conv, FlushBullets(conv, st));
    case PageBreakLine =>
      FlushTableWellFormed(st);
      WellFormedAppend((if st.inTable then FlushTable(st) else st).story, [PageBreak]);
    case ParagraphLine =>
      FlushTableWellFormed(st);
      WellFormedAppend((if st.inTable then FlushTable(st) else st).story, [Body(conv(line))]);
  }

  lemma {:induction false} RunWellFormed(conv: string -> string, lines: seq<string>)
    ensures WellFormed(Run(conv, lines).story)
  {
    if lines != [] {
      var prefix := lines[..|lines| - 1];
      var line := LineOf(lines[|lines| - 1]);
      RunWellFormed(conv, prefix);
      RunKeepsInv(conv, prefix);
      ClassifyFits(line);
      StepKindWellFormed(conv, Run(conv, prefix), line, Classify(line));
    }
  }

  /** Every block of the story is well formed: in particular no list and no
      table is ever empty, ordered lists count from 1, and `len(data[0])`
      is always defined. */
  lemma StoryWellFormed(conv: string -> string, lines: seq<string>)
    ensures WellFormed(StoryWith(conv, lines))
  {
    RunWellFormed(conv, lines);
    RunKeepsInv(conv, lines);
    FlushAllWellFormed(conv, Run(conv, lines));
  }

  // ----- when tables and lists end -----

  /** Flushing a buffer that holds nothing emits nothing and changes
      nothing. */
  lemma EmptyFlushesEmitNothing(conv: string -> string, st: State)
    ensures st.bullets == [] ==> FlushBullets(conv, st) == st
    ensures st.ordered == [] ==> FlushOrdered(conv, st) == st
    ensures st.table == [] ==> FlushTable(st) == st
  {
  }

  /** A blank line, a rule or a heading first flushes all three buffers;
      then a blank line emits nothing, a rule (a line that starts with `---`
      and is all dashes once stripped) emits one 12-point spacer, and a
      heading emits its title without the `# `, `## ` or `### ` prefix, at
      its level, followed by a spacer only at level 1. */
  lemma SectionLinesFlushAll(conv: string -> string, st: State, raw: string)
    requires Inv(st)
    requires var k := Classify(LineOf(raw)); k == BlankLine || k == RuleLine || k.HeadingLine?
    ensures var line := LineOf(raw);
      var k := Classify(line);
      var f := FlushAll(conv, st).story;
      var r := Step(conv, st, raw);
      && r.bullets == [] && r.ordered == [] && r.table == [] && !r.inTable
      && (k == BlankLine ==> AllSpace(line) && r.story == f)
      && (k == RuleLine ==> StartsWith(line, "---") && AllDashes(Strip(line))
                            && r.story == f + [Spacer(12)])
      && (k.HeadingLine? ==>
            && (k.level == 1 ==> line == "# " + k.title
                                 && r.story == f + [Heading(1, conv(k.title)), Spacer(12)])
            && (k.level == 2 ==> line == "## " + k.title
                                 && r.story == f + [Heading(2, conv(k.title))])
            && (k.level == 3 ==> line == "### " + k.title
                                 && r.story == f + [Heading(3, conv(k.title))]))
  {
    var line := LineOf(raw);
    var k := Classify(line);
    if k == BlankLine {
      ClassifyBlank(line);
    } else if k.HeadingLine? {
      ClassifyHeading(line);
    }
  }

  /** A table ends at the first line that is not a table row: after any
      other line the table buffer is empty and the flag is down. */
  lemma TableEndsAtOtherLine(conv: string -> string, st: State, line: string, k: LineKind)
    requires Inv(st) && k != TableLine
    ensures StepKind(conv, st, line, k).table == []
    ensures !StepKind(conv, st, line, k).inTable
  {
    match k
    case PageBreakLine =>
      if !st.inTable {
        assert st.table == [];
      }
    case ParagraphLine =>
      if !st.inTable {
        assert st.table == [];
      }
    case _ =>
  }

  /** A quote or a paragraph leaves both list buffers as they are: a list
      interrupted by one of them is emitted after it. */
  lemma ListsOutliveTextLines(conv: string -> string, st: State, line: string, k: LineKind)
    requires k.QuoteLine? || k == ParagraphLine || k == PageBreakLine
    ensures StepKind(conv, st, line, k).bullets == st.bullets
    ensures StepKind(conv, st, line, k).ordered == st.ordered
  {
  }

  lemma ClassifyBulletA()
    ensures Classify("- a") == BulletLine("a")
  {
    assert Strip("- a") == "- a";
  }

  lemma ClassifyQuoteQ()
    ensures Classify("> q") == QuoteLine("q")
  {
    assert Strip("> q") == "> q";
  }

  /** A bullet item followed directly by a quote: the quote comes first in
      the story and the one-item list after it. */
  lemma QuoteInsideList(conv: string -> string)
    ensures StoryWith(conv, ["- a", "> q"]) == [Quote(conv("q")), Bullets([conv("a")]), Spacer(8)]
  {
    RunTwo(conv, "- a", "> q");
    QuoteExampleFirst(conv);
    QuoteExampleSecond(conv);
    ConvertOne(conv, "a");
  }

  /** The loop over two lines is two steps from the start. */
  lemma RunTwo(conv: string -> string, l1: string, l2: string)
    ensures Run(conv, [l1, l2]) == Step(conv, Step(conv, Start, l1), l2)
  {
    assert [l1][..0] == [];
    assert Run(conv, [l1]) == Step(conv, Start, l1);
    assert [l1, l2][..1] == [l1];
  }

  lemma ConvertOne(conv: string -> string, x: string)
    ensures ConvertAll(conv, [x]) == [conv(x)]
  {
    assert [x][..0] == [];
  }

  lemma EnumerateOne(x: string)
    ensures Enumerate([x]) == [Entry(1, x)]
  {
    assert [x][..0] == [];
  }

  lemma QuoteExampleFirst(conv: string -> string)
    ensures Step(conv, Start, "- a") == State([], ["a"], [], [], false)
  {
    assert LineOf("- a") == "- a";
    ClassifyBulletA();
  }

  lemma QuoteExampleSecond(conv: string -> string)
    ensures Step(conv, State([], ["a"], [], [], false), "> q")
      == State([Quote(conv("q"))], ["a"], [], [], false)
  {
    assert LineOf("> q") == "> q";
    ClassifyQuoteQ();
  }

  lemma ClassifyOrderedA()
    ensures Classify("1. a") == OrderedLine("a")
  {
    assert Strip("1. a") == "1. a";
    assert DigitRun("1. a", 0) == 1;
  }

  lemma ClassifyParagraphB()
    ensures Classify("b") == ParagraphLine
  {
    assert Strip("b") == "b";
    assert DigitRun("b", 0) == 0;
  }

  /** An ordered item followed directly by a paragraph line: the paragraph
      comes first in the story and the list, numbered from 1, after it. */
  lemma ParagraphInsideList(conv: string -> string)
    ensures StoryWith(conv, ["1. a", "b"]) == [Body(conv("b")), Ordered([Entry(1, conv("a"))]), Spacer(8)]
  {
    RunTwo(conv, "1. a", "b");
    ParagraphExampleFirst(conv);
    ParagraphExampleSecond(conv);
    ConvertOne(conv, "a");
    EnumerateOne(conv("a"));
  }

  lemma ParagraphExampleFirst(conv: string -> string)
    ensures Step(conv, Start, "1. a") == State([], [], ["a"], [], false)
  {
    assert LineOf("1. a") == "1. a";
    ClassifyOrderedA();
  }

  lemma ParagraphExampleSecond(conv: string -> string)
    ensures Step(conv, State([], [], ["a"], [], false), "b")
      == State([Body(conv("b"))], [], ["a"], [], false)
  {
    assert LineOf("b") == "b";
    ClassifyParagraphB();
  }
}
