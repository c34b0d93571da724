/** Where the table lines of `build_story` (docs/generate_pdf.py) end up:
    every maximal run of consecutive table lines becomes exactly one `Table`
    block, built from that run, and the tables of the story come in the
    order of their runs. */
module StoryTables {
  import opened Text
  import opened LineSyntax
  import opened Story
  import opened StoryProperties

  // ----- the table blocks of a story -----

  /** The rows of every table block of a story, in order. */
  function TablesIn(story: seq<Block>): seq<seq<seq<string>>> {
    if story == [] then []
    else TablesIn(story[..|story| - 1]) + (if story[|story| - 1].Table? then [story[|story| - 1].rows] else [])
  }

  /** The rows `flush_table` builds for each run, in order. */
  function TablesOf(runs: seq<seq<string>>): seq<seq<seq<string>>> {
    if runs == [] then [] else TablesOf(runs[..|runs| - 1]) + [TableData(runs[|runs| - 1])]
  }

  lemma {:induction false} TablesOfSpec(runs: seq<seq<string>>)
    ensures |TablesOf(runs)| == |runs|
    ensures forall i :: 0 <= i < |runs| ==> TablesOf(runs)[i] == TableData(runs[i])
  {
    if runs != [] {
      TablesOfSpec(runs[..|runs| - 1]);
    }
  }

  lemma {:induction false} TablesInAppend(a: seq<Block>, b: seq<Block>)
    ensures TablesIn(a + b) == TablesIn(a) + TablesIn(b)
    decreases |b|
  {
    if b == [] {
      assert a + b == a;
    } else {
      var b' := b[..|b| - 1];
      assert (a + b)[..|a + b| - 1] == a + b';
      assert (a + b)[|a + b| - 1] == b[|b| - 1];
      TablesInAppend(a, b');
    }
  }

  lemma {:induction false} TablesInNone(blocks: seq<Block>)
    requires forall i :: 0 <= i < |blocks| ==> !blocks[i].Table?
    ensures TablesIn(blocks) == []
    decreases |blocks|
  {
    if blocks != [] {
      TablesInNone(blocks[..|blocks| - 1]);
    }
  }

  lemma TablesInOfTwo(b0: Block, b1: Block)
    requires !b1.Table?
    ensures TablesIn([b0, b1]) == if b0.Table? then [b0.rows] else []
  {
    assert [b0, b1][..1] == [b0];
    assert [b0][..0] == [];
    assert TablesIn([b0]) == TablesIn([]) + (if b0.Table? then [b0.rows] else []);
  }

  // ----- the runs of table lines -----

  /** A line `build_story` buffers as a table row. */
  predicate IsTableLine(raw: string) {
    Classify(LineOf(raw)).TableLine?
  }

  /** The runs of table lines read so far that another line has closed, and
      the run still open (empty when the last line was no table line). */
  datatype TableScan = TableScan(closed: seq<seq<string>>, open: seq<string>)

  function ScanTables(lines: seq<string>): TableScan {
    if lines == [] then TableScan([], [])
    else
      var sc := ScanTables(lines[..|lines| - 1]);
      var line := LineOf(lines[|lines| - 1]);
      if Classify(line).TableLine? then TableScan(sc.closed, sc.open + [line])
      else if sc.open == [] then sc
      else TableScan(sc.closed + [sc.open], [])
  }

  /** The maximal runs of consecutive table lines, in order, each as the
      lines the loop buffers. */
  function TableRuns(lines: seq<string>): seq<seq<string>> {
    var sc := ScanTables(lines);
    if sc.open == [] then sc.closed else sc.closed + [sc.open]
  }

  /** The table lines, in order, as the loop buffers them. */
  function TableLinesOf(lines: seq<string>): seq<string> {
    if lines == [] then []
    else
      var last := lines[|lines| - 1];
      TableLinesOf(lines[..|lines| - 1]) + (if IsTableLine(last) then [LineOf(last)] else [])
  }

  function Concat(runs: seq<seq<string>>): seq<string> {
    if runs == [] then [] else Concat(runs[..|runs| - 1]) + runs[|runs| - 1]
  }

  /** Every run is non-empty and made of table lines, and the runs together
      are the table lines in order. */
  lemma {:induction false} TableRunsSpec(lines: seq<string>)
    ensures forall r :: r in TableRuns(lines) ==> r != []
    ensures forall r, l :: r in TableRuns(lines) && l in r ==> Classify(l).TableLine?
    ensures Concat(TableRuns(lines)) == TableLinesOf(lines)
  {
    ScanTablesSpec(lines);
    var sc := ScanTables(lines);
    if sc.open != [] {
      var runs := sc.closed + [sc.open];
      assert runs[..|runs| - 1] == sc.closed;
    }
  }

  lemma {:induction false} ScanTablesSpec(lines: seq<string>)
    ensures var sc := ScanTables(lines);
      && (forall r :: r in sc.closed ==> r != [])
      && (forall r, l :: r in sc.closed && l in r ==> Classify(l).TableLine?)
      && (forall l :: l in sc.open ==> Classify(l).TableLine?)
      && Concat(sc.closed) + sc.open == TableLinesOf(lines)
  {
    if lines != [] {
      var prefix := lines[..|lines| - 1];
      ScanTablesSpec(prefix);
      var sc := ScanTables(prefix);
      var line := LineOf(lines[|lines| - 1]);
      if Classify(line).TableLine? {
        AppendAssoc(Concat(sc.closed), sc.open, [line]);
      } else if sc.open != [] {
        var runs := sc.closed + [sc.open];
        assert runs[..|runs| - 1] == sc.closed;
        assert Concat(runs) + [] == Concat(runs);
      } else {
        assert TableLinesOf(lines) == TableLinesOf(prefix) + [];
      }
    }
  }

  /** A line that is no table line separates the runs before it from the
      runs after it: no run reaches across it. */
  lemma TableRunsSplit(a: seq<string>, x: string, b: seq<string>)
    requires !IsTableLine(x)
    ensures TableRuns(a + [x] + b) == TableRuns(a) + TableRuns(b)
  {
    var ax := a + [x];
    assert ax[..|ax| - 1] == a;
    assert ScanTables(ax) == TableScan(TableRuns(a), []);
    ScanAfterClosed(ax, b);
    var sb := ScanTables(b);
    if sb.open != [] {
      AppendAssoc(TableRuns(a), sb.closed, [sb.open]);
    }
  }

  /** Scanning on from a point where no run is open adds the runs of what
      follows, as if scanned alone. */
  lemma {:induction false} ScanAfterClosed(p: seq<string>, b: seq<string>)
    requires ScanTables(p).open == []
    ensures ScanTables(p + b) == TableScan(ScanTables(p).closed + ScanTables(b).closed, ScanTables(b).open)
    decreases |b|
  {
    if b == [] {
      assert p + b == p;
    } else {
      var b' := b[..|b| - 1];
      assert (p + b)[..|p + b| - 1] == p + b';
      assert (p + b)[|p + b| - 1] == b[|b| - 1];
      ScanAfterClosed(p, b');
      var sb := ScanTables(b');
      if !IsTableLine(b[|b| - 1]) && sb.open != [] {
        AppendAssoc(ScanTables(p).closed, sb.closed, [sb.open]);
      }
    }
  }

  /** Consecutive table lines with nothing between them form one run. */
  lemma TableRunsOfTableLines(lines: seq<string>)
    requires lines != [] && forall i :: 0 <= i < |lines| ==> IsTableLine(lines[i])
    ensures TableRuns(lines) == [TableLinesOf(lines)]
  {
    ScanOfTableLines(lines);
  }

  lemma {:induction false} ScanOfTableLines(lines: seq<string>)
    requires forall i :: 0 <= i < |lines| ==> IsTableLine(lines[i])
    ensures ScanTables(lines) == TableScan([], TableLinesOf(lines))
  {
    if lines != [] {
      ScanOfTableLines(lines[..|lines| - 1]);
    }
  }

  // ----- one step at a time -----

  lemma FlushBulletsTables(conv: string -> string, st: State)
    ensures TablesIn(FlushBullets(conv, st).story) == TablesIn(st.story)
    ensures FlushBullets(conv, st).table == st.table
  {
    if st.bullets != [] {
      TablesInAppend(st.story, [Bullets(ConvertAll(conv, st.bullets)), Spacer(8)]);
      TablesInOfTwo(Bullets(ConvertAll(conv, st.bullets)), Spacer(8));
    }
  }

  lemma FlushOrderedTables(conv: string -> string, st: State)
    ensures TablesIn(FlushOrdered(conv, st).story) == TablesIn(st.story)
    ensures FlushOrdered(conv, st).table == st.table
  {
    if st.ordered != [] {
      TablesInAppend(st.story, [Ordered(Enumerate(ConvertAll(conv, st.ordered))), Spacer(8)]);
      TablesInOfTwo(Ordered(Enumerate(ConvertAll(conv, st.ordered))), Spacer(8));
    }
  }

  /** `flush_table` emits one table, built from the buffered lines, when
      there are any, and empties the buffer. */
  lemma FlushTableTables(st: State)
    ensures TablesIn(Story.FlushTable(st).story)
      == TablesIn(st.story) + if st.table == [] then [] else [TableData(st.table)]
    ensures Story.FlushTable(st).table == []
  {
    if st.table != [] {
      TablesInAppend(st.story, [Table(TableData(st.table)), Spacer(12)]);
      TablesInOfTwo(Table(TableData(st.table)), Spacer(12));
    } else {
      assert TablesIn(st.story) + [] == TablesIn(st.story);
    }
  }

  lemma EmitTables(st: State, blocks: seq<Block>)
    requires forall i :: 0 <= i < |blocks| ==> !blocks[i].Table?
    ensures TablesIn(Emit(st, blocks).story) == TablesIn(st.story)
    ensures Emit(st, blocks).table == st.table
  {
    TablesInAppend(st.story, blocks);
    TablesInNone(blocks);
  }

  /** The tables flushed so far, and the table lines still buffered. */
  predicate TablesHeld(st: State, sc: TableScan) {
    TablesIn(st.story) == TablesOf(sc.closed) && st.table == sc.open
  }

  /** A table line joins the buffer and emits no table; any other line
      closes the buffered table, if there is one. */
  lemma StepKindTables(conv: string -> string, st: State, line: string, k: LineKind)
    requires Inv(st)
    ensures var s := StepKind(conv, st, line, k);
      if k.TableLine? then TablesIn(s.story) == TablesIn(st.story) && s.table == st.table + [line]
      else s.table == [] && TablesIn(s.story) == TablesIn(st.story) + if st.table == [] then [] else [TableData(st.table)]
  {
    if k.TableLine? {
      FlushBulletsTables(conv, st);
      FlushOrderedTables(conv, FlushBullets(conv, st));
    } else if k.BulletLine? {
      FlushOrderedTables(conv, st);
      FlushTableTables(FlushOrdered(conv, st));
    } else if k.OrderedLine? {
      FlushBulletsTables(conv, st);
      FlushTableTables(FlushBullets(conv, st));
    } else if k.BlankLine? || k.RuleLine? || k.HeadingLine? {
      SectionStepTables(conv, st, line, k);
    } else {
      TextStepTables(conv, st, line, k);
    }
  }

  lemma SectionStepTables(conv: string -> string, st: State, line: string, k: LineKind)
    requires k.BlankLine? || k.RuleLine? || k.HeadingLine?
    ensures var s := StepKind(conv, st, line, k);
      s.table == [] && TablesIn(s.story) == TablesIn(st.story) + if st.table == [] then [] else [TableData(st.table)]
  {
    var f := FlushAll(conv, st);
    FlushBulletsTables(conv, st);
    FlushOrderedTables(conv, FlushBullets(conv, st));
    FlushTableTables(FlushOrdered(conv, FlushBullets(conv, st)));
    match k
    case BlankLine =>
    case RuleLine => EmitTables(f, [Spacer(12)]);
    case HeadingLine(level, title) =>
      if level == 1 {
        EmitTables(f, [Heading(1, conv(title)), Spacer(12)]);
      } else {
        EmitTables(f, [Heading(level, conv(title))]);
      }
  }

  lemma TextStepTables(conv: string -> string, st: State, line: string, k: LineKind)
    requires Inv(st)
    requires k.QuoteLine? || k.PageBreakLine? || k.ParagraphLine?
    ensures var s := StepKind(conv, st, line, k);
      s.table == [] && TablesIn(s.story) == TablesIn(st.story) + if st.table == [] then [] else [TableData(st.table)]
  {
    var b := if k.QuoteLine? then Quote(conv(k.text))
             else if k.PageBreakLine? then PageBreak
             else Body(conv(line));
    var s0 := if k.QuoteLine? || st.inTable then Story.FlushTable(st) else st;
    assert StepKind(conv, st, line, k) == Emit(s0, [b]);
    FlushTableTables(st);
    EmitTables(s0, [b]);
  }

  /** Between them, the story and the table buffer hold one table per run of
      table lines read so far: the closed runs as emitted tables, the open
      run as the buffer. */
  lemma {:induction false} RunTables(conv: string -> string, lines: seq<string>)
    ensures TablesHeld(Run(conv, lines), ScanTables(lines))
  {
    if lines != [] {
      var prefix := lines[..|lines| - 1];
      var line := LineOf(lines[|lines| - 1]);
      var sc := ScanTables(prefix);
      RunTables(conv, prefix);
      RunKeepsInv(conv, prefix);
      StepKindTables(conv, Run(conv, prefix), line, Classify(line));
      if !Classify(line).TableLine? && sc.open != [] {
        var runs := sc.closed + [sc.open];
        assert runs[..|runs| - 1] == sc.closed;
      } else if !Classify(line).TableLine? {
        assert TablesOf(sc.closed) + [] == TablesOf(sc.closed);
      }
    }
  }

  /** Every maximal run of consecutive table lines becomes exactly one table
      of the story, built from that run, and the tables come in the order
      of their runs. */
  lemma StoryTablesEveryRun(conv: string -> string, lines: seq<string>)
    ensures var tables := TablesIn(StoryWith(conv, lines));
      var runs := TableRuns(lines);
      |tables| == |runs| && forall i :: 0 <= i < |runs| ==> tables[i] == TableData(runs[i])
  {
    var st := Run(conv, lines);
    var sc := ScanTables(lines);
    RunTables(conv, lines);
    FlushBulletsTables(conv, st);
    FlushOrderedTables(conv, FlushBullets(conv, st));
    FlushTableTables(FlushOrdered(conv, FlushBullets(conv, st)));
    assert TablesIn(StoryWith(conv, lines)) == TablesOf(TableRuns(lines)) by {
      if sc.open != [] {
        var runs := sc.closed + [sc.open];
        assert runs[..|runs| - 1] == sc.closed;
      } else {
        assert TablesOf(sc.closed) + [] == TablesOf(sc.closed);
      }
    }
    TablesOfSpec(TableRuns(lines));
  }
}
