/** What `flush_table` (docs/generate_pdf.py) does with the buffered table
    lines: one row per line, cells without bars and stripped, and the
    Markdown separator row dropped. */
module TableProperties {
  import opened Text
  import opened LineSyntax
  import opened Story

  /** A line with a `|` is never blank, so it always gives a row. */
  lemma BarLineNotBlank(line: string)
    requires '|' in line
    ensures Strip(line) != []
  {
    StripEmpty(line);
    var i :| 0 <= i < |line| && line[i] == '|';
    assert !IsSpace(line[i]);
  }

  /** When every buffered line has a `|`, which is what the loop guarantees,
      each line gives exactly one row, in order. */
  lemma {:induction false} TableRowsOfBarLines(lines: seq<string>)
    requires forall i :: 0 <= i < |lines| ==> '|' in lines[i]
    ensures |TableRows(lines)| == |lines|
    ensures forall i :: 0 <= i < |lines| ==> TableRows(lines)[i] == TableRow(lines[i])
  {
    if lines != [] {
      BarLineNotBlank(lines[0]);
      TableRowsOfBarLines(lines[1..]);
      assert TableRows(lines) == [TableRow(lines[0])] + TableRows(lines[1..]);
      forall i | 0 <= i < |lines|
        ensures TableRows(lines)[i] == TableRow(lines[i])
      {
        if i > 0 {
          var rest := TableRows(lines[1..]);
          assert TableRows(lines)[i] == rest[i - 1];
          assert rest[i - 1] == TableRow(lines[1..][i - 1]);
          assert lines[1..][i - 1] == lines[i];
        } else {
          assert TableRows(lines)[0] == TableRow(lines[0]);
        }
      }
    }
  }

  /** Blank lines give no row; no line gives more than one. */
  lemma {:induction false} TableRowsAtMost(lines: seq<string>)
    ensures |TableRows(lines)| <= |lines|
  {
    if lines != [] {
      TableRowsAtMost(lines[1..]);
    }
  }

  /** Every row has at least one cell; no cell holds a `|` or begins or ends
      with whitespace. */
  lemma TableRowCells(line: string)
    ensures |TableRow(line)| >= 1
    ensures forall c :: c in TableRow(line) ==> '|' !in c && Strip(c) == c
  {
    StripCellsOf(Split(TrimEnd(TrimStart(Strip(line), IsBar), IsBar), '|'));
  }

  lemma {:induction false} StripCellsOf(parts: seq<string>)
    requires forall p :: p in parts ==> '|' !in p
    ensures |StripCells(parts)| == |parts|
    ensures forall c :: c in StripCells(parts) ==> '|' !in c && Strip(c) == c
  {
    if parts != [] {
      assert parts[0] in parts;
      StripAbsent(parts[0], '|');
      StripIdempotent(parts[0]);
      assert forall p :: p in parts[1..] ==> p in parts;
      StripCellsOf(parts[1..]);
    }
  }

  /** The separator cells a stripped cell can equal: the entries with a
      space in them can never match. */
  const EffectiveSeparators: set<string> := {"---", "-", ":-", "-:", ":-:"}

  lemma SpacedSeparatorsUnreachable(c: string)
    requires Strip(c) == c
    ensures c in SeparatorCells <==> c in EffectiveSeparators
  {
    StripUnchangedStarts(" :");
    StripUnchangedEnds(": ");
    StripUnchangedEnds(" : ");
  }

  lemma StripUnchangedStarts(c: string)
    requires c != [] && IsSpace(c[0])
    ensures Strip(c) != c
  {
    StripSpec(c);
  }

  lemma StripUnchangedEnds(c: string)
    requires c != [] && IsSpace(c[|c| - 1])
    ensures Strip(c) != c
  {
    StripSpec(c);
  }

  /** A row of table cells is a separator row exactly when every cell is
      `---`, `-`, `:-`, `-:` or `:-:`. */
  lemma SeparatorRowOfCells(line: string)
    ensures IsSeparatorRow(TableRow(line))
        <==> forall c :: c in TableRow(line) ==> c in EffectiveSeparators
  {
    TableRowCells(line);
    forall c | c in TableRow(line)
      ensures c in SeparatorCells <==> c in EffectiveSeparators
    {
      SpacedSeparatorsUnreachable(c);
    }
  }

  /** The header is kept, and a row is dropped exactly when there are at
      least two rows and the second is a separator row; then the rest follow
      the header in order. */
  lemma TableDataDropsSeparator(lines: seq<string>)
    requires TableRows(lines) != []
    ensures var rows := TableRows(lines);
      var data := TableData(lines);
      && data != [] && data[0] == rows[0]
      && (|data| == |rows| - 1 <==> |rows| >= 2 && IsSeparatorRow(rows[1]))
      && (|data| == |rows| - 1 ==> data[1..] == rows[2..])
      && (|data| == |rows| ==> data == rows)
  {
  }

  /** A flushed table is never empty and its first row has a cell, so the
      column count `len(data[0])` always exists. */
  lemma TableDataNonEmpty(lines: seq<string>)
    requires lines != [] && forall i :: 0 <= i < |lines| ==> '|' in lines[i]
    ensures TableData(lines) != [] && |TableData(lines)[0]| >= 1
  {
    TableRowsOfBarLines(lines);
    TableRowCells(lines[0]);
    TableDataDropsSeparator(lines);
  }
}
