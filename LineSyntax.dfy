/** How `build_story` (docs/generate_pdf.py) reads one line: the two
    list-item regular expressions, written as matchers, and the order in
    which the kinds of line are tried. */
module LineSyntax {
  import opened Text

  predicate IsNewline(c: char) { c == '\n' }
  predicate IsBar(c: char) { c == '|' }
  predicate IsQuoteMark(c: char) { c == '>' }

  /** `\d` for ASCII digits. */
  predicate IsDigit(c: char) { '0' <= c <= '9' }

  /** The number of spaces in `t` from index `i` on. */
  function SpaceRun(t: string, i: nat): (n: nat)
    requires i <= |t|
    ensures i + n <= |t|
    decreases |t| - i
  {
    if i < |t| && t[i] == ' ' then 1 + SpaceRun(t, i + 1) else 0
  }

  /** The run is the longest stretch of spaces starting at `i`. */
  lemma {:induction false} SpaceRunSpec(t: string, i: nat)
    requires i <= |t|
    ensures var n := SpaceRun(t, i);
      && (forall k :: i <= k < i + n ==> t[k] == ' ')
      && (i + n == |t| || t[i + n] != ' ')
    decreases |t| - i
  {
    if i < |t| && t[i] == ' ' {
      SpaceRunSpec(t, i + 1);
    }
  }

  /** The number of digits in `t` from index `i` on. */
  function DigitRun(t: string, i: nat): (n: nat)
    requires i <= |t|
    ensures i + n <= |t|
    decreases |t| - i
  {
    if i < |t| && IsDigit(t[i]) then 1 + DigitRun(t, i + 1) else 0
  }

  /** The run is the longest stretch of digits starting at `i`. */
  lemma {:induction false} DigitRunSpec(t: string, i: nat)
    requires i <= |t|
    ensures var n := DigitRun(t, i);
      && (forall k :: i <= k < i + n ==> IsDigit(t[k]))
      && (i + n == |t| || !IsDigit(t[i + n]))
    decreases |t| - i
  {
    if i < |t| && IsDigit(t[i]) {
      DigitRunSpec(t, i + 1);
    }
  }

  /** Where the line that contains index `i` ends: the first newline at or
      after `i`, or the end of `t` (how far `.` can reach). */
  function LineEnd(t: string, i: nat): (e: nat)
    requires i <= |t|
    ensures i <= e <= |t|
    ensures forall k :: i <= k < e ==> t[k] != '\n'
    ensures e == |t| || t[e] == '\n'
    decreases |t| - i
  {
    if i < |t| && t[i] != '\n' then LineEnd(t, i + 1) else i
  }

  /** ` +(.+)` can match at index `start` of `t` with `n` spaces: `n >= 1`
      spaces and then a character that `.` matches. */
  predicate TailAt(t: string, start: nat, n: nat)
    requires start <= |t|
  {
    1 <= n && start + n < |t|
    && (forall k :: start <= k < start + n ==> t[k] == ' ')
    && t[start + n] != '\n'
  }

  /** ` +(.+)` matched at index `start` of `t`, giving the group.  The run of
      spaces is greedy; when nothing but a newline or the end of `t` follows
      it, the engine gives one space back and the group is that space. */
  function MatchItemTail(t: string, start: nat): Option<string>
    requires start <= |t|
  {
    var n := SpaceRun(t, start);
    var j := start + n;
    if n == 0 then None
    else if j < |t| && t[j] != '\n' then Some(t[j..LineEnd(t, j)])
    else if n >= 2 then Some([t[j - 1]])
    else None
  }

  /** The matcher finds a group exactly when the pattern can match. */
  lemma MatchItemTailMatches(t: string, start: nat)
    requires start <= |t|
    ensures MatchItemTail(t, start).Some? <==> exists n :: TailAt(t, start, n)
  {
    SpaceRunSpec(t, start);
    var n := SpaceRun(t, start);
    var j := start + n;
    if n == 0 {
      forall m ensures !TailAt(t, start, m) {
        if 1 <= m && start + m < |t| {
          assert start == |t| || t[start] != ' ';
        }
      }
    } else if j < |t| && t[j] != '\n' {
      assert TailAt(t, start, n);
    } else if n >= 2 {
      assert TailAt(t, start, n - 1);
    } else {
      forall m ensures !TailAt(t, start, m) {
        if 2 <= m && start + m < |t| {
          assert t[start + 1] != ' ';
        }
      }
    }
  }

  /** The group, once stripped, is the rest of the line after the marker,
      stripped; it holds no newline. */
  lemma MatchItemTailText(t: string, start: nat)
    requires start <= |t| && MatchItemTail(t, start).Some?
    ensures '\n' !in MatchItemTail(t, start).value
    ensures Strip(MatchItemTail(t, start).value) == Strip(t[start..LineEnd(t, start)])
  {
    var j := start + SpaceRun(t, start);
    if j < |t| && t[j] != '\n' {
      GroupAfterSpaces(t, start);
    } else {
      GroupOfOneSpace(t, start);
    }
  }

  lemma GroupAfterSpaces(t: string, start: nat)
    requires start <= |t| && SpaceRun(t, start) > 0
    requires start + SpaceRun(t, start) < |t| && t[start + SpaceRun(t, start)] != '\n'
    ensures MatchItemTail(t, start).Some?
    ensures '\n' !in MatchItemTail(t, start).value
    ensures Strip(MatchItemTail(t, start).value) == Strip(t[start..LineEnd(t, start)])
  {
    SpaceRunSpec(t, start);
    var j := start + SpaceRun(t, start);
    assert MatchItemTail(t, start) == Some(t[j..LineEnd(t, j)]);
    ItemTailText(t, start, j);
  }

  lemma GroupOfOneSpace(t: string, start: nat)
    requires start <= |t| && SpaceRun(t, start) >= 2
    requires start + SpaceRun(t, start) == |t| || t[start + SpaceRun(t, start)] == '\n'
    ensures MatchItemTail(t, start) == Some([' '])
    ensures Strip([' ']) == Strip(t[start..LineEnd(t, start)])
  {
    SpaceRunSpec(t, start);
    var j := start + SpaceRun(t, start);
    ItemTailBlank(t, start, j);
  }

  /** The group after a full run of spaces is the rest of the line. */
  lemma ItemTailText(t: string, start: nat, j: nat)
    requires start <= j < |t| && t[j] != '\n'
    requires forall k :: start <= k < j ==> t[k] == ' '
    ensures LineEnd(t, start) == LineEnd(t, j)
    ensures '\n' !in t[j..LineEnd(t, j)]
    ensures Strip(t[j..LineEnd(t, j)]) == Strip(t[start..LineEnd(t, start)])
  {
    var e := LineEnd(t, j);
    LineEndSkip(t, start, j);
    NoNewlineBefore(t, j, e);
    SpacesThenRest(t, start, j, e);
  }

  lemma NoNewlineBefore(t: string, j: nat, e: nat)
    requires j <= e <= |t| && forall k :: j <= k < e ==> t[k] != '\n'
    ensures '\n' !in t[j..e]
  {
    forall k | 0 <= k < e - j ensures t[j..e][k] != '\n' {
      assert t[j..e][k] == t[j + k];
    }
  }

  lemma SpacesThenRest(t: string, start: nat, j: nat, e: nat)
    requires start <= j <= e <= |t|
    requires forall k :: start <= k < j ==> t[k] == ' '
    ensures Strip(t[start..e]) == Strip(t[j..e])
  {
    assert t[start..e] == t[start..j] + t[j..e];
    StripLeadingSpace(t[start..j], t[j..e]);
  }

  /** Spaces up to the end of the line leave nothing after stripping. */
  lemma ItemTailBlank(t: string, start: nat, j: nat)
    requires start <= j <= |t| && (j == |t| || t[j] == '\n')
    requires forall k :: start <= k < j ==> t[k] == ' '
    ensures LineEnd(t, start) == j
    ensures Strip(t[start..j]) == [] && Strip([' ']) == []
  {
    LineEndSkip(t, start, j);
    StripEmpty(t[start..j]);
    StripEmpty([' ']);
  }

  /** Skipping characters that are not newlines does not move the end of
      the line. */
  lemma LineEndSkip(t: string, i: nat, j: nat)
    requires i <= j <= |t|
    requires forall k :: i <= k < j ==> t[k] != '\n'
    ensures LineEnd(t, i) == LineEnd(t, j)
    decreases j - i
  {
    if i < j {
      LineEndSkip(t, i + 1, j);
    }
  }

  /** `re.match(r"[-*] +(.+)", t)`, giving the group. */
  function MatchBullet(t: string): Option<string> {
    if t != [] && (t[0] == '-' || t[0] == '*') then MatchItemTail(t, 1) else None
  }

  /** `re.match(r"\d+[.)] +(.+)", t)`, giving the group.  The digit run is
      greedy and a shorter run never helps, since a digit is neither `.`
      nor `)`. */
  function MatchOrdered(t: string): Option<string> {
    var d := DigitRun(t, 0);
    if d >= 1 && d < |t| && (t[d] == '.' || t[d] == ')') then MatchItemTail(t, d + 1) else None
  }

  /** The number in front of an ordered item is read and thrown away: any
      two non-empty runs of digits give the same item. */
  lemma OrderedDigitsIgnored(d1: string, d2: string, rest: string)
    requires d1 != [] && d2 != []
    requires forall i :: 0 <= i < |d1| ==> IsDigit(d1[i])
    requires forall i :: 0 <= i < |d2| ==> IsDigit(d2[i])
    ensures MatchOrdered(d1 + rest) == MatchOrdered(d2 + rest)
  {
    OrderedAfterDigits(d1, rest);
    OrderedAfterDigits(d2, rest);
  }

  /** Behind a run of digits, only what follows matters. */
  lemma OrderedAfterDigits(d: string, rest: string)
    requires d != [] && forall i :: 0 <= i < |d| ==> IsDigit(d[i])
    ensures MatchOrdered(d + rest)
      == var k := DigitRun(rest, 0);
         if k < |rest| && (rest[k] == '.' || rest[k] == ')') then MatchItemTail(rest, k + 1) else None
  {
    DigitRunPrefix(d, rest);
    MarkerAfterDigits(d, rest, DigitRun(rest, 0));
  }

  /** Once the digit run of `d + rest` is known to end at `|d| + k`, what
      follows it depends on `rest` alone. */
  lemma MarkerAfterDigits(d: string, rest: string, k: nat)
    requires d != [] && k <= |rest| && DigitRun(d + rest, 0) == |d| + k
    ensures MatchOrdered(d + rest)
      == if k < |rest| && (rest[k] == '.' || rest[k] == ')') then MatchItemTail(rest, k + 1) else None
  {
    MatchOrderedAt(d + rest, |d| + k);
    if k < |rest| {
      ConcatIndex(d, rest, k);
      ItemTailShift(d, rest, k + 1);
    }
  }

  /** `MatchOrdered` once the length of the digit run is known. */
  lemma MatchOrderedAt(t: string, m: nat)
    requires m == DigitRun(t, 0)
    ensures MatchOrdered(t)
      == if m >= 1 && m < |t| && (t[m] == '.' || t[m] == ')') then MatchItemTail(t, m + 1) else None
  {
  }

  lemma ConcatIndex(d: string, rest: string, k: nat)
    requires k < |rest|
    ensures (d + rest)[|d| + k] == rest[k]
  {
  }

  /** The digit run of `d + rest` is `d` followed by the digit run of `rest`. */
  lemma DigitRunPrefix(d: string, rest: string)
    requires forall i :: 0 <= i < |d| ==> IsDigit(d[i])
    ensures DigitRun(d + rest, 0) == |d| + DigitRun(rest, 0)
  {
    DigitRunFrom(d, rest, 0);
    DigitRunShift(d, rest, 0);
  }

  lemma DigitRunFrom(d: string, rest: string, i: nat)
    requires i <= |d|
    requires forall k :: 0 <= k < |d| ==> IsDigit(d[k])
    ensures DigitRun(d + rest, i) == |d| - i + DigitRun(d + rest, |d|)
    decreases |d| - i
  {
    if i < |d| {
      assert (d + rest)[i] == d[i];
      DigitRunFrom(d, rest, i + 1);
    }
  }

  lemma DigitRunShift(d: string, rest: string, i: nat)
    requires i <= |rest|
    ensures DigitRun(d + rest, |d| + i) == DigitRun(rest, i)
    decreases |rest| - i
  {
    if i < |rest| {
      assert (d + rest)[|d| + i] == rest[i];
      DigitRunShift(d, rest, i + 1);
    }
  }

  /** Matching the item tail only looks at what follows the marker. */
  lemma ItemTailShift(p: string, t: string, i: nat)
    requires i <= |t|
    ensures MatchItemTail(p + t, |p| + i) == MatchItemTail(t, i)
  {
    SpaceRunShift(p, t, i);
    var n := SpaceRun(t, i);
    var j := i + n;
    if n == 0 {
    } else if j < |t| && t[j] != '\n' {
      assert (p + t)[|p| + j] == t[j];
      LineEndShift(p, t, j);
      SliceOfConcat(p, t, j, LineEnd(t, j));
    } else {
      if j < |t| {
        assert (p + t)[|p| + j] == t[j];
      }
      assert (p + t)[|p| + j - 1] == t[j - 1];
    }
  }

  lemma SliceOfConcat(p: string, t: string, a: nat, b: nat)
    requires a <= b <= |t|
    ensures (p + t)[|p| + a..|p| + b] == t[a..b]
  {
  }

  lemma SpaceRunShift(p: string, t: string, i: nat)
    requires i <= |t|
    ensures SpaceRun(p + t, |p| + i) == SpaceRun(t, i)
    decreases |t| - i
  {
    if i < |t| {
      assert (p + t)[|p| + i] == t[i];
      SpaceRunShift(p, t, i + 1);
    }
  }

  lemma LineEndShift(p: string, t: string, i: nat)
    requires i <= |t|
    ensures LineEnd(p + t, |p| + i) == |p| + LineEnd(t, i)
    decreases |t| - i
  {
    if i < |t| {
      assert (p + t)[|p| + i] == t[i];
      LineEndShift(p, t, i + 1);
    }
  }

  /** What one line (already without its trailing newlines) is, tried in the
      order `build_story` tries them.  Titles and texts are still raw
      Markdown; `convert_inline` is applied when the block is built. */
  datatype LineKind =
    | BlankLine
    | RuleLine
    | HeadingLine(level: nat, title: string)
    | QuoteLine(text: string)
    | BulletLine(item: string)
    | OrderedLine(item: string)
    | TableLine
    | PageBreakLine
    | ParagraphLine

  /** Every character of `t` is `-` and there is at least one. */
  predicate AllDashes(t: string) {
    t != [] && forall i :: 0 <= i < |t| ==> t[i] == '-'
  }

  function Classify(line: string): LineKind {
    var t := Strip(line);
    if t == [] then BlankLine
    else if StartsWith(line, "---") && AllDashes(t) then RuleLine
    else if StartsWith(line, "# ") then HeadingLine(1, line[2..])
    else if StartsWith(line, "## ") then HeadingLine(2, line[3..])
    else if StartsWith(line, "### ") then HeadingLine(3, line[4..])
    else if t[0] == '>' then QuoteLine(Strip(TrimStart(t, IsQuoteMark)))
    else match MatchBullet(t)
      case Some(g) => BulletLine(Strip(g))
      case None =>
        match MatchOrdered(t)
        case Some(g) => OrderedLine(Strip(g))
        case None =>
          if '|' in line then TableLine
          else if LowerEquals(t, "pagebreak") then PageBreakLine
          else ParagraphLine
  }

  /** A line is blank exactly when it is all whitespace. */
  lemma ClassifyBlank(line: string)
    ensures Classify(line) == BlankLine <==> AllSpace(line)
  {
    StripEmpty(line);
  }

  /** A heading line is its level's hash signs, a space and the title. */
  lemma ClassifyHeading(line: string)
    requires Classify(line).HeadingLine?
    ensures var k := Classify(line);
      && 1 <= k.level <= 3
      && (k.level == 1 ==> line == "# " + k.title)
      && (k.level == 2 ==> line == "## " + k.title)
      && (k.level == 3 ==> line == "### " + k.title)
  {
    if StartsWith(line, "# ") {
      StartsWithSplit(line, "# ");
    } else if StartsWith(line, "## ") {
      StartsWithSplit(line, "## ");
    } else {
      StartsWithSplit(line, "### ");
    }
  }

  /** Only a line with a `|` is a table row. */
  lemma ClassifyTable(line: string)
    requires Classify(line) == TableLine
    ensures '|' in line
  {
  }

  /** A bullet item is the stripped rest of the stripped line after its
      marker, up to the first newline. */
  lemma ClassifyBulletItem(line: string)
    requires Classify(line).BulletLine?
    ensures var t := Strip(line);
      && t != [] && (t[0] == '-' || t[0] == '*')
      && Classify(line).item == Strip(t[1..LineEnd(t, 1)])
      && '\n' !in Classify(line).item
  {
    var t := Strip(line);
    MatchItemTailText(t, 1);
    StripAbsent(MatchBullet(t).value, '\n');
  }

  /** An ordered item is the stripped rest of the stripped line after its
      digits and its `.` or `)`, up to the first newline. */
  lemma ClassifyOrderedItem(line: string)
    requires Classify(line).OrderedLine?
    ensures var t := Strip(line);
      var d := DigitRun(t, 0);
      && 1 <= d < |t| && (t[d] == '.' || t[d] == ')')
      && Classify(line).item == Strip(t[d + 1..LineEnd(t, d + 1)])
      && '\n' !in Classify(line).item
  {
    var t := Strip(line);
    assert MatchOrdered(t).Some? && Classify(line).item == Strip(MatchOrdered(t).value);
    OrderedGroup(t);
  }

  lemma OrderedGroup(t: string)
    requires MatchOrdered(t).Some?
    ensures var d := DigitRun(t, 0);
      && 1 <= d < |t| && (t[d] == '.' || t[d] == ')')
      && Strip(MatchOrdered(t).value) == Strip(t[d + 1..LineEnd(t, d + 1)])
      && '\n' !in Strip(MatchOrdered(t).value)
  {
    var d := DigitRun(t, 0);
    MatchOrderedAt(t, d);
    ItemGroupText(t, d + 1);
  }

  lemma ItemGroupText(t: string, start: nat)
    requires start <= |t| && MatchItemTail(t, start).Some?
    ensures Strip(MatchItemTail(t, start).value) == Strip(t[start..LineEnd(t, start)])
    ensures '\n' !in Strip(MatchItemTail(t, start).value)
  {
    MatchItemTailText(t, start);
    StripAbsent(MatchItemTail(t, start).value, '\n');
  }
}
