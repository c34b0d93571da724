/** `convert_inline` (docs/generate_pdf.py): the inline Markdown of one line
    (code spans, bold, italic) rewritten into the tag vocabulary of the PDF
    paragraph renderer, then XML-escaped with exactly six tags restored.

    The three regular expressions are written out as scanners with the
    same leftmost, non-overlapping matching that `re.sub` performs:
      - code:   `` `([^`]+)` ``
      - bold:   `\*\*([^*]+)\*\*`
      - italic: `(?<!\*)\*([^*]+)\*(?!\*)` */
module Inline {
  import opened Text
  import opened Markup

  /** Position of the first `c` in `s`. */
  function IndexOf(s: string, c: char): (r: Option<nat>)
    ensures r.Some? ==> r.value < |s| && s[r.value] == c && c !in s[..r.value]
    ensures r.None? <==> c !in s
  {
    if s == [] then None
    else if s[0] == c then Some(0)
    else
      match IndexOf(s[1..], c)
      case None => None
      case Some(j) =>
        assert s[..j + 1] == [s[0]] + s[1..][..j];
        Some(j + 1)
  }

  /** `INLINE_CODE_PATTERN.sub(repl_code, s)`: a backtick, at least one
      non-backtick character, a backtick; the inside is escaped and wrapped
      in the Courier font tags. */
  function SubCode(s: string): string
    decreases |s|
  {
    if s == [] then []
    else
      var m := if s[0] == '`' then IndexOf(s[1..], '`') else None;
      if m.Some? && m.value > 0 then
        FontOpen + Escape(s[1..m.value + 1]) + FontClose + SubCode(s[m.value + 2..])
      else
        [s[0]] + SubCode(s[1..])
  }

  /** `BOLD_PATTERN.sub(repl_bold, s)`: `**`, at least one non-asterisk
      character, `**`; the inside is escaped and wrapped in `<b>`..`</b>`. */
  function SubBold(s: string): string
    decreases |s|
  {
    if s == [] then []
    else
      var m := if StartsWith(s, "**") then IndexOf(s[2..], '*') else None;
      if m.Some? && m.value > 0 && m.value + 3 < |s| && s[m.value + 3] == '*' then
        BoldOpen + Escape(s[2..m.value + 2]) + BoldClose + SubBold(s[m.value + 4..])
      else
        [s[0]] + SubBold(s[1..])
  }

  /** `ITALIC_PATTERN.sub(repl_italic, s)`: an asterisk not preceded by an
      asterisk, at least one non-asterisk character, and an asterisk not
      followed by one.  `afterStar` says whether the character of the
      original string just before `s` is an asterisk (the look-behind). */
  function SubItalic(s: string, afterStar: bool): string
    decreases |s|
  {
    if s == [] then []
    else
      var m := if s[0] == '*' && !afterStar then IndexOf(s[1..], '*') else None;
      if m.Some? && m.value > 0 && (m.value + 2 == |s| || s[m.value + 2] != '*') then
        ItalicOpen + Escape(s[1..m.value + 1]) + ItalicClose + SubItalic(s[m.value + 2..], true)
      else
        [s[0]] + SubItalic(s[1..], s[0] == '*')
  }

  /** The six `replace` calls that turn escaped tags back into tags. */
  function RestoreTags(s: string): string {
    var s1 := Replace(s, "&lt;b&gt;", "<b>");
    var s2 := Replace(s1, "&lt;/b&gt;", "</b>");
    var s3 := Replace(s2, "&lt;i&gt;", "<i>");
    var s4 := Replace(s3, "&lt;/i&gt;", "</i>");
    var s5 := Replace(s4, "&lt;font face=\"Courier\"&gt;", "<font face=\"Courier\">");
    Replace(s5, "&lt;/font&gt;", "</font>")
  }

  /** `convert_inline(text)` */
  function ConvertInline(text: string): string {
    var t := Strip(text);
    var t1 := SubCode(t);
    var t2 := SubBold(t1);
    var t3 := SubItalic(t2, false);
    RestoreTags(Escape(t3))
  }

  // ----- the patterns `RestoreTags` looks for are the escaped tags -----

  lemma EscapedTags()
    ensures Escape(BoldOpen) == "&lt;b&gt;" && Escape(BoldClose) == "&lt;/b&gt;"
    ensures Escape(ItalicOpen) == "&lt;i&gt;" && Escape(ItalicClose) == "&lt;/i&gt;"
    ensures Escape(FontOpen) == "&lt;font face=\"Courier\"&gt;"
    ensures Escape(FontClose) == "&lt;/font&gt;"
  {
    EscapedShortTags();
    EscapedFontOpen();
    EscapedFontClose();
  }

  lemma EscapedShortTags()
    ensures Escape(BoldOpen) == "&lt;b&gt;" && Escape(BoldClose) == "&lt;/b&gt;"
    ensures Escape(ItalicOpen) == "&lt;i&gt;" && Escape(ItalicClose) == "&lt;/i&gt;"
  {
  }

  // The font tag is handled in small steps: the solver does not evaluate
  // `Escape` over its 21 characters within its budget.
  lemma EscapedFontOpen()
    ensures Escape(FontOpen) == "&lt;font face=\"Courier\"&gt;"
  {
    FontOpenParts();
    EscapeBracketed(FontFace);
    FontOpenEscapedParts();
  }

  const FontFace := "font face=\"Courier\""

  lemma FontOpenParts()
    ensures FontOpen == "<" + (FontFace + ">")
    ensures forall i :: 0 <= i < |FontFace| ==> IsPlainChar(FontFace[i])
  {
  }

  lemma FontOpenEscapedParts()
    ensures "&lt;" + FontFace + "&gt;" == "&lt;font face=\"Courier\"&gt;"
  {
  }

  lemma EscapeBracketed(body: string)
    requires forall i :: 0 <= i < |body| ==> IsPlainChar(body[i])
    ensures Escape("<" + (body + ">")) == "&lt;" + body + "&gt;"
  {
    EscapePlain(body);
    EscapeConcat(body, ">");
    EscapeConcat("<", body + ">");
    EscapeAngles();
    AppendAssoc("&lt;", body, "&gt;");
  }

  lemma EscapeAngles()
    ensures Escape("<") == "&lt;" && Escape(">") == "&gt;"
  {
    assert "<"[1..] == [] && ">"[1..] == [];
  }

  lemma EscapedFontClose()
    ensures Escape(FontClose) == "&lt;/font&gt;"
  {
    FontCloseParts();
    EscapeBracketed("/font");
    FontCloseEscapedParts();
  }

  lemma FontCloseParts()
    ensures FontClose == "<" + ("/font" + ">")
    ensures forall i :: 0 <= i < |"/font"| ==> IsPlainChar("/font"[i])
  {
  }

  lemma FontCloseEscapedParts()
    ensures "&lt;" + "/font" + "&gt;" == "&lt;/font&gt;"
  {
  }

  // ----- tag safety -----

  /** The output of `convert_inline` is markup: every `<` in it begins one of
      the six tags, every `>` ends one, and every `&` begins `&amp;`, `&lt;`
      or `&gt;`. */
  lemma ConvertInlineIsMarkup(text: string)
    ensures IsMarkup(ConvertInline(text))
  {
    var t3 := SubItalic(SubBold(SubCode(Strip(text))), false);
    var e := Escape(t3);
    MarkupEscape(t3);
    EscapedTags();
    RestoreStepKeepsMarkup(e, BoldOpen);
    var s1 := Replace(e, "&lt;b&gt;", "<b>");
    RestoreStepKeepsMarkup(s1, BoldClose);
    var s2 := Replace(s1, "&lt;/b&gt;", "</b>");
    RestoreStepKeepsMarkup(s2, ItalicOpen);
    var s3 := Replace(s2, "&lt;i&gt;", "<i>");
    RestoreStepKeepsMarkup(s3, ItalicClose);
    var s4 := Replace(s3, "&lt;/i&gt;", "</i>");
    RestoreStepKeepsMarkup(s4, FontOpen);
    var s5 := Replace(s4, "&lt;font face=\"Courier\"&gt;", "<font face=\"Courier\">");
    RestoreStepKeepsMarkup(s5, FontClose);
  }

  lemma RestoreStepKeepsMarkup(s: string, tag: string)
    requires IsMarkup(s) && IsTag(tag)
    ensures IsMarkup(Replace(s, Escape(tag), tag))
  {
    EscapedTagStart(tag);
    MarkupEscape(tag);
    MarkupTag(tag);
    ReplaceKeepsMarkup(s, Escape(tag), tag);
  }

  /** Character by character: a `<` of the output begins a tag, a `>` ends
      one and an `&` begins an entity. */
  lemma ConvertInlineTagSafe(text: string, k: nat)
    requires k < |ConvertInline(text)|
    ensures var out := ConvertInline(text);
      (out[k] == '<' ==> StartsWithTag(out[k..]))
      && (out[k] == '>' ==> EndsWithTag(out[..k + 1]))
      && (out[k] == '&' ==> StartsWithEntity(out[k..]))
  {
    ConvertInlineIsMarkup(text);
    MarkupChars(ConvertInline(text), k);
  }

  // ----- the six restorations, one stage at a time -----

  /** The names of the six tags, in the order `RestoreTags` restores them. */
  const TagNames: seq<string> := ["b", "/b", "i", "/i", FontFace, "/font"]

  function TagOf(k: nat): string
    requires k < 6
  {
    "<" + TagNames[k] + ">"
  }

  lemma TagNamesPlain()
    ensures forall k, i :: 0 <= k < 6 && 0 <= i < |TagNames[k]| ==> IsPlainChar(TagNames[k][i])
    ensures forall j, k :: 0 <= j < 6 && 0 <= k < 6 && j != k ==> TagNames[j] != TagNames[k]
  {
    FontOpenParts();
  }

  lemma TagTable()
    ensures EscapedTag(TagNames[0]) == "&lt;b&gt;" && TagOf(0) == BoldOpen
    ensures EscapedTag(TagNames[1]) == "&lt;/b&gt;" && TagOf(1) == BoldClose
    ensures EscapedTag(TagNames[2]) == "&lt;i&gt;" && TagOf(2) == ItalicOpen
    ensures EscapedTag(TagNames[3]) == "&lt;/i&gt;" && TagOf(3) == ItalicClose
    ensures EscapedTag(TagNames[4]) == "&lt;font face=\"Courier\"&gt;" && TagOf(4) == FontOpen
    ensures EscapedTag(TagNames[5]) == "&lt;/font&gt;" && TagOf(5) == FontClose
  {
    FontOpenParts();
    FontOpenEscapedParts();
  }

  /** The first `j` of the six replacements of `RestoreTags`. */
  function RestoreFirst(s: string, j: nat): string
    requires j <= 6
  {
    if j == 0 then s
    else Replace(RestoreFirst(s, j - 1), EscapedTag(TagNames[j - 1]), TagOf(j - 1))
  }

  lemma RestoreTagsInStages(s: string)
    ensures RestoreTags(s) == RestoreFirst(s, 6)
  {
    TagTable();
    var s1 := Replace(s, "&lt;b&gt;", "<b>");
    assert RestoreFirst(s, 1) == s1;
    var s2 := Replace(s1, "&lt;/b&gt;", "</b>");
    assert RestoreFirst(s, 2) == s2;
    var s3 := Replace(s2, "&lt;i&gt;", "<i>");
    assert RestoreFirst(s, 3) == s3;
    var s4 := Replace(s3, "&lt;/i&gt;", "</i>");
    assert RestoreFirst(s, 4) == s4;
    var s5 := Replace(s4, "&lt;font face=\"Courier\"&gt;", "<font face=\"Courier\">");
    assert RestoreFirst(s, 5) == s5;
    assert RestoreFirst(s, 6) == Replace(s5, "&lt;/font&gt;", "</font>");
  }

  /** Tag `a` after `j` restorations: restored once its own turn has come. */
  function Stage(a: nat, j: nat): string
    requires a < 6
  {
    if a < j then TagOf(a) else EscapedTag(TagNames[a])
  }

  /** At every stage a tag is either the next pattern or holds no occurrence
      of it, and the next replacement moves it to the next stage. */
  lemma StageSettled(a: nat, j: nat)
    requires a < 6 && j < 6
    ensures Settled(Stage(a, j), EscapedTag(TagNames[j]))
    ensures (if Stage(a, j) == EscapedTag(TagNames[j]) then TagOf(j) else Stage(a, j))
      == Stage(a, j + 1)
  {
    TagNamesPlain();
    var p := EscapedTag(TagNames[j]);
    if a < j {
      assert TagOf(a)[0] == '<' && p[0] == '&';
      assert '&' !in TagOf(a) by {
        assert TagOf(a) == "<" + TagNames[a] + ">";
      }
      InertWithoutFirst(TagOf(a), p);
    } else if a > j {
      InertEscapedTag(TagNames[a], TagNames[j]);
      assert EscapedTag(TagNames[a]) != p by {
        assert EscapedTag(TagNames[a])[4..|TagNames[a]| + 4] == TagNames[a];
        assert p[4..|TagNames[j]| + 4] == TagNames[j];
      }
    }
  }

  /** Restoring an escaped tag, a piece in which every `&` begins `&amp;`,
      and another escaped tag, with text without `&` on either side, stage
      by stage. */
  lemma {:induction false} RestoreStages(u: string, a: nat, b: nat, v: string, u2: string, j: nat)
    requires a < 6 && b < 6 && j <= 6 && AmpOnly(v) && '&' !in u && '&' !in u2
    ensures RestoreFirst(u + (EscapedTag(TagNames[a]) + v + EscapedTag(TagNames[b])) + u2, j)
      == u + (Stage(a, j) + v + Stage(b, j)) + u2
  {
    if j > 0 {
      RestoreStages(u, a, b, v, u2, j - 1);
      RestoreStep(u, a, b, v, u2, j - 1);
    }
  }

  lemma RestoreStep(u: string, a: nat, b: nat, v: string, u2: string, j: nat)
    requires a < 6 && b < 6 && j < 6 && AmpOnly(v) && '&' !in u && '&' !in u2
    ensures Replace(u + (Stage(a, j) + v + Stage(b, j)) + u2, EscapedTag(TagNames[j]), TagOf(j))
      == u + (Stage(a, j + 1) + v + Stage(b, j + 1)) + u2
  {
    StageSettled(a, j);
    StageSettled(b, j);
    EscapedTagHead(TagNames[j]);
    ReplaceAroundIn(u, Stage(a, j), v, Stage(b, j), u2, EscapedTag(TagNames[j]), TagOf(j),
      Stage(a, j + 1), Stage(b, j + 1));
  }

  /** The escaped forms of two consecutive tags of the list (an opening tag
      and its closing tag when `a` is even) around a piece in which every
      `&` begins `&amp;`, amid text without `&`, come out of `RestoreTags` as
      the two tags around that piece, the rest unchanged. */
  lemma RestoreSpan(u: string, a: nat, v: string, u2: string)
    requires a < 5 && AmpOnly(v) && '&' !in u && '&' !in u2
    ensures RestoreTags(u + (EscapedTag(TagNames[a]) + v + EscapedTag(TagNames[a + 1])) + u2)
      == u + (TagOf(a) + v + TagOf(a + 1)) + u2
  {
    RestoreTagsInStages(u + (EscapedTag(TagNames[a]) + v + EscapedTag(TagNames[a + 1])) + u2);
    RestoreStages(u, a, a + 1, v, u2, 6);
  }

  /** A string cut into the six tags (by index) and pieces of text. */
  datatype Piece = TagPiece(k: nat) | TextPiece(text: string)

  /** Every tag index names one of the six tags, and every `&` of a text
      piece begins `&amp;`. */
  predicate ValidPieces(ps: seq<Piece>) {
    forall i :: 0 <= i < |ps| ==>
      (ps[i].TagPiece? ==> ps[i].k < 6) && (ps[i].TextPiece? ==> AmpOnly(ps[i].text))
  }

  function PieceAt(pc: Piece, j: nat): string {
    match pc
    case TagPiece(k) => if k < 6 then Stage(k, j) else []
    case TextPiece(t) => t
  }

  /** The pieces written out with the tags at stage `j`: the first `j` tags
      of the list restored, the others still escaped. */
  function Staged(ps: seq<Piece>, j: nat): string {
    if ps == [] then [] else PieceAt(ps[0], j) + Staged(ps[1..], j)
  }

  lemma ValidTail(ps: seq<Piece>)
    requires ps != [] && ValidPieces(ps)
    ensures ValidPieces(ps[1..])
  {
    forall i | 0 <= i < |ps| - 1 ensures ps[1..][i] == ps[i + 1] { }
  }

  /** A text in which every `&` begins `&amp;` is never a `&l` pattern. */
  lemma AmpOnlyNotPattern(x: string, p: string)
    requires AmpOnly(x) && |p| >= 2 && p[0] == '&' && p[1] == 'l'
    ensures x != p
  {
    if |x| >= 2 && x[0] == '&' {
      assert StartsWith(x[0..], "&amp;");
      assert x[1] == x[0..][1];
    }
  }

  lemma {:induction false} StagedStep(ps: seq<Piece>, j: nat)
    requires ValidPieces(ps) && j < 6
    ensures Replace(Staged(ps, j), EscapedTag(TagNames[j]), TagOf(j)) == Staged(ps, j + 1)
    decreases |ps|
  {
    if ps != [] {
      var p := EscapedTag(TagNames[j]);
      EscapedTagHead(TagNames[j]);
      ValidTail(ps);
      if ps[0].TagPiece? {
        StageSettled(ps[0].k, j);
      } else {
        InertAmpOnly(ps[0].text, p);
        AmpOnlyNotPattern(ps[0].text, p);
      }
      ReplaceSettled(PieceAt(ps[0], j), Staged(ps[1..], j), p, TagOf(j));
      StagedStep(ps[1..], j);
    }
  }

  lemma {:induction false} StagedRestore(ps: seq<Piece>, j: nat)
    requires ValidPieces(ps) && j <= 6
    ensures RestoreFirst(Staged(ps, 0), j) == Staged(ps, j)
  {
    if j > 0 {
      StagedRestore(ps, j - 1);
      StagedStep(ps, j - 1);
    }
  }

  /** Escaped tags among texts in which every `&` begins `&amp;` all come back
      out of `RestoreTags` as the tags, and the texts are kept. */
  lemma RestorePieces(ps: seq<Piece>)
    requires ValidPieces(ps)
    ensures RestoreTags(Staged(ps, 0)) == Staged(ps, 6)
  {
    RestoreTagsInStages(Staged(ps, 0));
    StagedRestore(ps, 6);
  }

  // ----- text without markup characters -----

  lemma {:induction false} SubCodeNoTick(s: string)
    requires '`' !in s
    ensures SubCode(s) == s
    decreases |s|
  {
    if s != [] {
      SubCodeNoTick(s[1..]);
      assert s == [s[0]] + s[1..];
    }
  }

  /** No two asterisks side by side. */
  predicate NoStarPair(s: string) {
    forall i :: 0 <= i < |s| - 1 && s[i] == '*' ==> s[i + 1] != '*'
  }

  lemma {:induction false} SubBoldNoStarPair(s: string)
    requires NoStarPair(s)
    ensures SubBold(s) == s
    decreases |s|
  {
    if s != [] {
      assert !StartsWith(s, "**") by {
        if |s| >= 2 && s[0] == '*' { assert s[1] != '*'; }
      }
      assert NoStarPair(s[1..]) by {
        forall i | 0 <= i < |s[1..]| - 1 && s[1..][i] == '*' ensures s[1..][i + 1] != '*' {
          assert s[1..][i] == s[i + 1];
        }
      }
      SubBoldNoStarPair(s[1..]);
      assert s == [s[0]] + s[1..];
    }
  }

  lemma {:induction false} SubItalicNoStar(s: string, afterStar: bool)
    requires '*' !in s
    ensures SubItalic(s, afterStar) == s
    decreases |s|
  {
    if s != [] {
      SubItalicNoStar(s[1..], false);
      assert s == [s[0]] + s[1..];
    }
  }

  /** A string without `&` is left alone by every restoration. */
  lemma RestoreTagsNoAmp(s: string)
    requires '&' !in s
    ensures RestoreTags(s) == s
  {
    RestoreTagsInStages(s);
    RestoreFirstNoAmp(s, 6);
  }

  lemma {:induction false} RestoreFirstNoAmp(s: string, j: nat)
    requires '&' !in s && j <= 6
    ensures RestoreFirst(s, j) == s
  {
    if j > 0 {
      RestoreFirstNoAmp(s, j - 1);
      var p := EscapedTag(TagNames[j - 1]);
      assert p[0] == '&';
      ReplaceAbsent(s, p, TagOf(j - 1));
    }
  }

  /** Text with none of `` ` ``, `*`, `&`, `<`, `>` comes out stripped and
      otherwise unchanged. */
  lemma ConvertInlinePlain(text: string)
    requires PlainText(text)
    ensures ConvertInline(text) == Strip(text)
  {
    var t := Strip(text);
    StripAbsent(text, '`');
    StripAbsent(text, '*');
    StripAbsent(text, '&');
    StripAbsent(text, '<');
    StripAbsent(text, '>');
    SubCodeNoTick(t);
    assert NoStarPair(t);
    SubBoldNoStarPair(t);
    SubItalicNoStar(t, false);
    EscapePlain(t);
    RestoreTagsNoAmp(t);
  }

  // ----- code, bold and italic spans -----

  /** Text with none of the characters the converter treats specially. */
  predicate PlainText(s: string) {
    '`' !in s && '*' !in s && '&' !in s && '<' !in s && '>' !in s
  }

  lemma PlainTextChars(s: string)
    requires PlainText(s)
    ensures forall i :: 0 <= i < |s| ==> IsPlainChar(s[i])
  {
    forall i | 0 <= i < |s| ensures IsPlainChar(s[i]) {
      assert s[i] in s;
    }
  }

  lemma PlainSlice(s: string, i: nat, j: nat)
    requires PlainText(s) && i <= j <= |s|
    ensures PlainText(s[i..j])
  {
    forall k | 0 <= k < j - i ensures s[i..j][k] in s {
      assert s[i..j][k] == s[i + k];
    }
  }

  /** Plain text keeps being plain once whitespace is trimmed off. */
  lemma PlainTrimmed(p: string, z: string)
    requires PlainText(p) && PlainText(z)
    ensures PlainText(TrimStart(p, IsSpace)) && PlainText(TrimEnd(z, IsSpace))
  {
    var p2 := TrimStart(p, IsSpace);
    var z2 := TrimEnd(z, IsSpace);
    TrimStartSpec(p, IsSpace);
    TrimEndSpec(z, IsSpace);
    PlainSlice(p, |p| - |p2|, |p|);
    assert p[|p| - |p2|..|p|] == p2;
    PlainSlice(z, 0, |z2|);
    assert z[0..|z2|] == z2;
  }

  lemma NoStarNoPair(s: string)
    requires '*' !in s
    ensures NoStarPair(s)
  {
    forall i | 0 <= i < |s| - 1 ensures s[i] != '*' {
      assert s[i] in s;
    }
  }

  lemma NotInConcat3(x: string, y: string, z: string, c: char)
    requires c !in x && c !in y && c !in z
    ensures c !in x + y + z
  {
  }

  /** The first `c` of `w + [c] + z`, when `w` has none, is the one just
      after `w`. */
  lemma IndexOfAfter(w: string, c: char, z: string)
    requires c !in w
    ensures IndexOf(w + [c] + z, c) == Some(|w|)
  {
    assert (w + [c] + z)[|w|] == c;
  }

  /** The code substitution passes text without a backtick through. */
  lemma {:induction false} SubCodePlain(p: string, y: string)
    requires '`' !in p
    ensures SubCode(p + y) == p + SubCode(y)
    decreases |p|
  {
    if p != [] {
      NotInTail(p, '`');
      assert p == [p[0]] + p[1..];
      AppendAssoc([p[0]], p[1..], y);
      SubCodeCons(p[0], p[1..] + y);
      SubCodePlain(p[1..], y);
      AppendAssoc([p[0]], p[1..], SubCode(y));
    } else {
      assert p + y == y && p + SubCode(y) == SubCode(y);
    }
  }

  /** The code substitution over text without a backtick, a code span and
      the rest: the text before the span is kept, the span becomes its
      escaped text in Courier, and the substitution goes on after it. */
  lemma SubCodeIn(p: string, w: string, z: string)
    requires '`' !in p && w != [] && '`' !in w
    ensures SubCode(p + ("`" + w + "`") + z) == p + (FontOpen + Escape(w) + FontClose) + SubCode(z)
  {
    SubCodePlain(p, "`" + w + "`" + z);
    SubCodeAt(w, z);
    AppendAssoc(p, "`" + w + "`", z);
    AppendAssoc(p, FontOpen + Escape(w) + FontClose, SubCode(z));
  }

  lemma SubCodeAt(w: string, z: string)
    requires w != [] && '`' !in w
    ensures SubCode("`" + w + "`" + z) == FontOpen + Escape(w) + FontClose + SubCode(z)
  {
    var s := "`" + w + "`" + z;
    assert s[0] == '`';
    assert s[1..] == w + ['`'] + z;
    IndexOfAfter(w, '`', z);
    assert s[1..|w| + 1] == w;
    assert s[|w| + 2..] == z;
  }

  lemma SubCodeCons(c: char, t: string)
    requires c != '`'
    ensures SubCode([c] + t) == [c] + SubCode(t)
  {
    assert ([c] + t)[1..] == t;
  }

  lemma EmptyAround(m: string)
    ensures [] + m + [] == m
  {
  }

  lemma EmptyFront(m: string, z: string)
    ensures [] + m + z == m + z
  {
  }

  /** The bold substitution passes text without `*` through. */
  lemma {:induction false} SubBoldPlain(p: string, y: string)
    requires '*' !in p
    ensures SubBold(p + y) == p + SubBold(y)
    decreases |p|
  {
    if p != [] {
      NotInTail(p, '*');
      assert p == [p[0]] + p[1..];
      AppendAssoc([p[0]], p[1..], y);
      SubBoldCons(p[0], p[1..] + y);
      SubBoldPlain(p[1..], y);
      AppendAssoc([p[0]], p[1..], SubBold(y));
    } else {
      assert p + y == y && p + SubBold(y) == SubBold(y);
    }
  }

  /** The bold substitution over text without `*`, a bold span and the rest. */
  lemma SubBoldIn(p: string, w: string, z: string)
    requires '*' !in p && w != [] && '*' !in w
    ensures SubBold(p + ("**" + w + "**") + z) == p + (BoldOpen + Escape(w) + BoldClose) + SubBold(z)
  {
    SubBoldPlain(p, "**" + w + "**" + z);
    SubBoldAt(w, z);
    AppendAssoc(p, "**" + w + "**", z);
    AppendAssoc(p, BoldOpen + Escape(w) + BoldClose, SubBold(z));
  }

  lemma SubBoldAt(w: string, z: string)
    requires w != [] && '*' !in w
    ensures SubBold("**" + w + "**" + z) == BoldOpen + Escape(w) + BoldClose + SubBold(z)
  {
    BoldSpanShape(w, z);
    SubBoldMatched("**" + w + "**" + z, w, z);
  }

  /** Where the bold pattern finds its closing `**` in `**w**z`. */
  lemma BoldSpanShape(w: string, z: string)
    requires w != [] && '*' !in w
    ensures var s := "**" + w + "**" + z;
      |s| >= |w| + 4 && StartsWith(s, "**") && IndexOf(s[2..], '*') == Some(|w|)
      && s[|w| + 3] == '*' && s[2..|w| + 2] == w && s[|w| + 4..] == z
  {
    var s := "**" + w + "**" + z;
    assert StartsWith(s, "**");
    assert s[2..] == w + ['*'] + (['*'] + z);
    IndexOfAfter(w, '*', ['*'] + z);
    assert s[2..|w| + 2] == w;
    assert s[|w| + 3] == '*';
    assert s[|w| + 4..] == z;
  }

  lemma SubBoldMatched(s: string, w: string, z: string)
    requires |s| >= |w| + 4 && StartsWith(s, "**") && IndexOf(s[2..], '*') == Some(|w|) && |w| > 0
    requires s[|w| + 3] == '*' && s[2..|w| + 2] == w && s[|w| + 4..] == z
    ensures SubBold(s) == BoldOpen + Escape(w) + BoldClose + SubBold(z)
  {
  }

  lemma SubBoldCons(c: char, t: string)
    requires c != '*'
    ensures SubBold([c] + t) == [c] + SubBold(t)
  {
    assert !StartsWith([c] + t, "**");
    assert ([c] + t)[1..] == t;
  }

  /** The italic substitution passes non-empty text without `*` through;
      after it the look-behind sees no asterisk. */
  lemma {:induction false} SubItalicPlain(p: string, y: string, afterStar: bool)
    requires p != [] && '*' !in p
    ensures SubItalic(p + y, afterStar) == p + SubItalic(y, false)
    decreases |p|
  {
    NotInTail(p, '*');
    assert p == [p[0]] + p[1..];
    AppendAssoc([p[0]], p[1..], y);
    SubItalicCons(p[0], p[1..] + y, afterStar);
    if |p| > 1 {
      SubItalicPlain(p[1..], y, false);
      AppendAssoc([p[0]], p[1..], SubItalic(y, false));
    } else {
      assert p[1..] == [] && p == [p[0]];
    }
  }

  /** The italic substitution over text without `*`, an italic span and a
      rest that does not begin with `*`.  After the span the look-behind
      sees the closing asterisk. */
  lemma SubItalicIn(p: string, w: string, z: string, afterStar: bool)
    requires '*' !in p && w != [] && '*' !in w && (z == [] || z[0] != '*')
    requires p == [] ==> !afterStar
    ensures SubItalic(p + ("*" + w + "*") + z, afterStar)
      == p + (ItalicOpen + Escape(w) + ItalicClose) + SubItalic(z, true)
  {
    SubItalicAt(w, z);
    AppendAssoc(p, "*" + w + "*", z);
    AppendAssoc(p, ItalicOpen + Escape(w) + ItalicClose, SubItalic(z, true));
    if p != [] {
      SubItalicPlain(p, "*" + w + "*" + z, afterStar);
    } else {
      EmptyFront("*" + w + "*", z);
      EmptyFront(ItalicOpen + Escape(w) + ItalicClose, SubItalic(z, true));
    }
  }

  lemma SubItalicAt(w: string, z: string)
    requires w != [] && '*' !in w && (z == [] || z[0] != '*')
    ensures SubItalic("*" + w + "*" + z, false) == ItalicOpen + Escape(w) + ItalicClose + SubItalic(z, true)
  {
    ItalicMatch(w, z);
    SubItalicMatched("*" + w + "*" + z, |w|);
  }

  lemma SubItalicMatched(s: string, k: nat)
    requires s != [] && s[0] == '*' && IndexOf(s[1..], '*') == Some(k) && k > 0
    requires k + 2 == |s| || s[k + 2] != '*'
    ensures SubItalic(s, false) == ItalicOpen + Escape(s[1..k + 1]) + ItalicClose + SubItalic(s[k + 2..], true)
  {
  }

  /** Where the italic pattern matches `"*" + w + "*" + z`. */
  lemma ItalicMatch(w: string, z: string)
    requires w != [] && '*' !in w && (z == [] || z[0] != '*')
    ensures var s := "*" + w + "*" + z;
      s[0] == '*' && IndexOf(s[1..], '*') == Some(|w|)
      && (|w| + 2 == |s| || s[|w| + 2] != '*')
      && s[1..|w| + 1] == w && s[|w| + 2..] == z
  {
    var s := "*" + w + "*" + z;
    assert s[1..] == w + ['*'] + z;
    IndexOfAfter(w, '*', z);
    assert s[1..|w| + 1] == w;
    assert s[|w| + 2..] == z;
    assert |w| + 2 == |s| || s[|w| + 2] == z[0];
  }

  lemma SubItalicCons(c: char, t: string, afterStar: bool)
    requires c != '*'
    ensures SubItalic([c] + t, afterStar) == [c] + SubItalic(t, false)
  {
    assert ([c] + t)[1..] == t;
  }

  /** Escaping leaves plain text around a piece as it is. */
  lemma EscapeAround(u: string, m: string, u2: string)
    requires PlainText(u) && PlainText(u2)
    ensures Escape(u + m + u2) == u + Escape(m) + u2
  {
    PlainTextChars(u);
    PlainTextChars(u2);
    EscapeConcat(u + m, u2);
    EscapeConcat(u, m);
    EscapePlain(u);
    EscapePlain(u2);
  }

  /** The text of a span is escaped when the span is rewritten and once more
      with the whole line; the tags around it come back as tags and the
      plain text around it is kept. */
  lemma EscapeRestoreSpan(u: string, a: nat, w: string, u2: string)
    requires a < 5 && PlainText(u) && PlainText(u2)
    ensures RestoreTags(Escape(u + (TagOf(a) + Escape(w) + TagOf(a + 1)) + u2))
      == u + (TagOf(a) + Escape(Escape(w)) + TagOf(a + 1)) + u2
  {
    TagNamesPlain();
    EscapeTagOf(a);
    EscapeTagOf(a + 1);
    EscapeConcat(TagOf(a), Escape(w));
    EscapeConcat(TagOf(a) + Escape(w), TagOf(a + 1));
    EscapeAround(u, TagOf(a) + Escape(w) + TagOf(a + 1), u2);
    EscapeRemovesAngles(w, '<');
    EscapeRemovesAngles(w, '>');
    EscapeAmpOnly(Escape(w));
    RestoreSpan(u, a, Escape(Escape(w)), u2);
  }

  lemma EscapeTagOf(k: nat)
    requires k < 6
    ensures Escape(TagOf(k)) == EscapedTag(TagNames[k])
  {
    TagNamesPlain();
    EscapeBracketed(TagNames[k]);
    assert TagOf(k) == "<" + (TagNames[k] + ">");
  }

  /** The pipeline on plain text around a span `m` that `strip()` keeps
      whole and that the three substitutions turn into
      `TagOf(a) + Escape(w) + TagOf(a + 1)`. */
  lemma ConvertSpanIn(p: string, m: string, z: string, a: nat, w: string)
    requires a < 5 && PlainText(p) && PlainText(z)
    requires |m| >= 2 && (m[0] == '`' || m[0] == '*') && (m[|m| - 1] == '`' || m[|m| - 1] == '*')
    requires SubItalic(SubBold(SubCode(TrimStart(p, IsSpace) + m + TrimEnd(z, IsSpace))), false)
      == TrimStart(p, IsSpace) + (TagOf(a) + Escape(w) + TagOf(a + 1)) + TrimEnd(z, IsSpace)
    ensures ConvertInline(p + m + z)
      == TrimStart(p, IsSpace) + (TagOf(a) + Escape(Escape(w)) + TagOf(a + 1)) + TrimEnd(z, IsSpace)
  {
    StripSpanIn(p, m, z);
    EscapeRestoreSpan(TrimStart(p, IsSpace), a, w, TrimEnd(z, IsSpace));
  }

  /** Escaped text without `*` between two tags, amid plain text, holds no
      `*`: neither later substitution touches it. */
  lemma SpanNoStar(u: string, a: nat, w: string, u2: string)
    requires a < 5 && '*' !in w && PlainText(u) && PlainText(u2)
    ensures var t := u + (TagOf(a) + Escape(w) + TagOf(a + 1)) + u2;
      SubBold(t) == t && SubItalic(t, false) == t
  {
    var m := TagOf(a) + Escape(w) + TagOf(a + 1);
    EscapeRemovesAngles(w, '*');
    TagOfNoStar(a);
    TagOfNoStar(a + 1);
    NotInConcat3(TagOf(a), Escape(w), TagOf(a + 1), '*');
    NotInConcat3(u, m, u2, '*');
    NoStarNoPair(u + m + u2);
    SubBoldNoStarPair(u + m + u2);
    SubItalicNoStar(u + m + u2, false);
  }

  lemma BoldTags()
    ensures TagOf(0) == BoldOpen && TagOf(1) == BoldClose
  {
  }

  lemma ItalicTags()
    ensures TagOf(2) == ItalicOpen && TagOf(3) == ItalicClose
  {
  }

  lemma FontTags()
    ensures TagOf(4) == FontOpen && TagOf(5) == FontClose
  {
    FontOpenParts();
  }

  lemma TagOfNoStar(k: nat)
    requires k < 6
    ensures '*' !in TagOf(k)
  {
    TagTable();
  }

  /** A span `open + w + close`, amid plain text, as `strip()` leaves it. */
  lemma StripSpanIn(p: string, m: string, z: string)
    requires PlainText(p) && PlainText(z)
    requires |m| >= 2 && (m[0] == '`' || m[0] == '*') && (m[|m| - 1] == '`' || m[|m| - 1] == '*')
    ensures Strip(p + m + z) == TrimStart(p, IsSpace) + m + TrimEnd(z, IsSpace)
    ensures PlainText(TrimStart(p, IsSpace)) && PlainText(TrimEnd(z, IsSpace))
  {
    StripAround(p, m, z);
    PlainTrimmed(p, z);
  }

  /** A code span amid plain text: the text around it is stripped at the
      ends of the line and otherwise kept, and the span's text comes out
      escaped twice between the Courier font tags. */
  lemma ConvertCodeSpanIn(p: string, w: string, z: string)
    requires PlainText(p) && PlainText(z) && w != [] && '`' !in w && '*' !in w
    ensures ConvertInline(p + ("`" + w + "`") + z)
      == TrimStart(p, IsSpace) + (FontOpen + Escape(Escape(w)) + FontClose) + TrimEnd(z, IsSpace)
  {
    PlainTrimmed(p, z);
    CodeSpanSubstituted(TrimStart(p, IsSpace), w, TrimEnd(z, IsSpace));
    ConvertSpanIn(p, "`" + w + "`", z, 4, w);
    FontTags();
  }

  lemma CodeSpanSubstituted(p: string, w: string, z: string)
    requires PlainText(p) && PlainText(z) && w != [] && '`' !in w && '*' !in w
    ensures SubItalic(SubBold(SubCode(p + ("`" + w + "`") + z)), false)
      == p + (TagOf(4) + Escape(w) + TagOf(5)) + z
  {
    SubCodeIn(p, w, z);
    SubCodeNoTick(z);
    FontTags();
    SpanNoStar(p, 4, w, z);
  }

  /** A bold span amid plain text: the span's text comes out escaped twice
      between `<b>` and `</b>`. */
  lemma ConvertBoldSpanIn(p: string, w: string, z: string)
    requires PlainText(p) && PlainText(z) && w != [] && '`' !in w && '*' !in w
    ensures ConvertInline(p + ("**" + w + "**") + z)
      == TrimStart(p, IsSpace) + (BoldOpen + Escape(Escape(w)) + BoldClose) + TrimEnd(z, IsSpace)
  {
    PlainTrimmed(p, z);
    BoldSpanSubstituted(TrimStart(p, IsSpace), w, TrimEnd(z, IsSpace));
    ConvertSpanIn(p, "**" + w + "**", z, 0, w);
    BoldTags();
  }

  lemma BoldSpanSubstituted(p: string, w: string, z: string)
    requires PlainText(p) && PlainText(z) && w != [] && '`' !in w && '*' !in w
    ensures SubItalic(SubBold(SubCode(p + ("**" + w + "**") + z)), false)
      == p + (TagOf(0) + Escape(w) + TagOf(1)) + z
  {
    BoldSpanUncoded(p, w, z);
    BoldSpanBolded(p, w, z);
    SpanNoStar(p, 0, w, z);
  }

  lemma BoldSpanUncoded(p: string, w: string, z: string)
    requires PlainText(p) && PlainText(z) && '`' !in w
    ensures SubCode(p + ("**" + w + "**") + z) == p + ("**" + w + "**") + z
  {
    var m := "**" + w + "**";
    assert '`' !in m;
    NotInConcat3(p, m, z, '`');
    SubCodeNoTick(p + m + z);
  }

  lemma BoldSpanBolded(p: string, w: string, z: string)
    requires PlainText(p) && PlainText(z) && w != [] && '*' !in w
    ensures SubBold(p + ("**" + w + "**") + z) == p + (TagOf(0) + Escape(w) + TagOf(1)) + z
  {
    SubBoldIn(p, w, z);
    NoStarNoPair(z);
    SubBoldNoStarPair(z);
    BoldTags();
  }

  /** An italic span amid plain text: the span's text comes out escaped
      twice between `<i>` and `</i>`. */
  lemma ConvertItalicSpanIn(p: string, w: string, z: string)
    requires PlainText(p) && PlainText(z) && w != [] && '`' !in w && '*' !in w
    ensures ConvertInline(p + ("*" + w + "*") + z)
      == TrimStart(p, IsSpace) + (ItalicOpen + Escape(Escape(w)) + ItalicClose) + TrimEnd(z, IsSpace)
  {
    PlainTrimmed(p, z);
    ItalicSpanSubstituted(TrimStart(p, IsSpace), w, TrimEnd(z, IsSpace));
    ConvertSpanIn(p, "*" + w + "*", z, 2, w);
    ItalicTags();
  }

  lemma ItalicSpanSubstituted(p: string, w: string, z: string)
    requires PlainText(p) && PlainText(z) && w != [] && '`' !in w && '*' !in w
    ensures SubItalic(SubBold(SubCode(p + ("*" + w + "*") + z)), false)
      == p + (TagOf(2) + Escape(w) + TagOf(3)) + z
  {
    var m := "*" + w + "*";
    assert '`' !in m;
    NotInConcat3(p, m, z, '`');
    SubCodeNoTick(p + m + z);
    ItalicNoStarPair(p, w, z);
    SubBoldNoStarPair(p + m + z);
    assert z == [] || z[0] != '*' by {
      if z != [] { assert z[0] in z; }
    }
    SubItalicIn(p, w, z, false);
    SubItalicNoStar(z, true);
    ItalicTags();
  }

  /** The only asterisks of `p + "*" + w + "*" + z` are the two around `w`,
      which is not empty: no two are side by side. */
  lemma ItalicNoStarPair(p: string, w: string, z: string)
    requires '*' !in p && '*' !in z && w != [] && '*' !in w
    ensures NoStarPair(p + ("*" + w + "*") + z)
  {
    var s := p + ("*" + w + "*") + z;
    forall i | 0 <= i < |s| ensures s[i] == '*' ==> i == |p| || i == |p| + |w| + 1 {
      if i < |p| {
        assert s[i] == p[i] && p[i] in p;
      } else if |p| < i <= |p| + |w| {
        assert s[i] == w[i - |p| - 1] && w[i - |p| - 1] in w;
      } else if i > |p| + |w| + 1 {
        assert s[i] == z[i - |p| - |w| - 2] && z[i - |p| - |w| - 2] in z;
      }
    }
  }

  /** Text in a code span is escaped twice: an ampersand comes out as
      `&amp;amp;`. */
  lemma CodeSpanDoubleEscape(p: string, q: string)
    requires PlainText(p) && PlainText(q)
    ensures ConvertInline("`" + p + "&" + q + "`") == FontOpen + p + "&amp;amp;" + q + FontClose
  {
    var w := p + "&" + q;
    assert "`" + w + "`" == "`" + p + "&" + q + "`";
    assert '`' !in w && '*' !in w;
    ConvertCodeLine(w);
    EscapeTwiceAround(p, "&", q);
    AmpEscapedTwice();
    NestedRegroup(FontOpen, p, Escape(Escape("&")), q, FontClose);
  }

  /** Escaping twice keeps text without `&`, `<` and `>` on either side. */
  lemma EscapeTwiceAround(u: string, f: string, v: string)
    requires PlainText(u) && PlainText(v)
    ensures Escape(Escape(u + f + v)) == u + Escape(Escape(f)) + v
  {
    PlainTextChars(u);
    PlainTextChars(v);
    EscapeConcat(u, f);
    EscapeConcat(u + f, v);
    EscapePlain(u);
    EscapePlain(v);
    EscapeConcat(u, Escape(f));
    EscapeConcat(u + Escape(f), v);
  }

  /** A line that is one code span. */
  lemma ConvertCodeLine(w: string)
    requires w != [] && '`' !in w && '*' !in w
    ensures ConvertInline("`" + w + "`") == FontOpen + Escape(Escape(w)) + FontClose
  {
    var none: string := [];
    ConvertCodeSpanIn(none, w, none);
    EmptyAround("`" + w + "`");
    EmptyAround(FontOpen + Escape(Escape(w)) + FontClose);
    assert TrimStart(none, IsSpace) == none && TrimEnd(none, IsSpace) == none;
  }

  lemma AmpEscapedTwice()
    ensures Escape(Escape("&")) == "&amp;amp;"
  {
    assert Escape("&") == "&amp;";
    EscapeConcat("&", "amp;");
    EscapePlain("amp;");
    assert "&amp;" == "&" + "amp;";
  }

  // ----- nested markup -----

  /** The italic substitution reaches inside a code span: `` `*w*` `` comes
      out as `w` in italics inside the Courier font tags, not as `*w*` in
      Courier. */
  lemma CodeSpanItalicised(w: string)
    requires PlainText(w) && w != []
    ensures ConvertInline("`*" + w + "*`") == FontOpen + ItalicOpen + w + ItalicClose + FontClose
  {
    var s := "`*" + w + "*`";
    var t := TagOf(4) + (TagOf(2) + w + TagOf(3)) + TagOf(5);
    StripUnchanged(s);
    CodeItalicSubstituted(w);
    CodeItalicEscaped(w);
    CodeItalicRestored(w);
    ConvertThrough(s, t, Staged(CodeItalicPieces(w), 0), t);
    NestedRegroup(TagOf(4), TagOf(2), w, TagOf(3), TagOf(5));
    FontTags();
    ItalicTags();
  }

  lemma NestedRegroup(a: string, b: string, w: string, c: string, d: string)
    ensures a + (b + w + c) + d == a + b + w + c + d
  {
  }

  /** The pipeline in its stages: substituted text `t`, escaped text `e`,
      restored text `r`. */
  lemma ConvertThrough(s: string, t: string, e: string, r: string)
    requires Strip(s) == s && SubItalic(SubBold(SubCode(s)), false) == t
    requires Escape(t) == e && RestoreTags(e) == r
    ensures ConvertInline(s) == r
  {
  }

  lemma CodeItalicSubstituted(w: string)
    requires PlainText(w) && w != []
    ensures SubItalic(SubBold(SubCode("`*" + w + "*`")), false)
      == TagOf(4) + (TagOf(2) + w + TagOf(3)) + TagOf(5)
  {
    var m := "*" + w + "*";
    assert "`" + m + "`" + [] == "`*" + w + "*`";
    SubCodeAt(m, []);
    PlainStarred(w);
    EscapePlain(m);
    PlainTextChars(w);
    EscapePlain(w);
    FontTags();
    ItalicTags();
    TagOfNoStar(4);
    TagOfNoStar(5);
    var t1 := FontOpen + m + FontClose;
    assert FontOpen + Escape(m) + FontClose + SubCode([]) == t1;
    ItalicNoStarPair(FontOpen, w, FontClose);
    SubBoldNoStarPair(t1);
    assert FontClose[0] == '<';
    SubItalicIn(FontOpen, w, FontClose, false);
    SubItalicNoStar(FontClose, true);
  }

  /** Text without `&`, `<` and `>`, between two asterisks, escapes to itself. */
  lemma PlainStarred(w: string)
    requires PlainText(w)
    ensures forall i :: 0 <= i < |"*" + w + "*"| ==> IsPlainChar(("*" + w + "*")[i])
  {
    PlainTextChars(w);
    forall i | 0 <= i < |"*" + w + "*"| ensures IsPlainChar(("*" + w + "*")[i]) {
      if 0 < i <= |w| {
        assert ("*" + w + "*")[i] == w[i - 1];
      }
    }
  }

  function CodeItalicPieces(w: string): seq<Piece> {
    [TagPiece(4), TagPiece(2), TextPiece(w), TagPiece(3), TagPiece(5)]
  }

  /** Two tags around a text, tag and text alike as pieces. */
  lemma StagedAround(k: nat, qs: seq<Piece>, l: nat, j: nat)
    requires k < 6 && l < 6
    ensures Staged([TagPiece(k)] + qs + [TagPiece(l)], j) == Stage(k, j) + Staged(qs, j) + Stage(l, j)
  {
    var ps := [TagPiece(k)] + qs + [TagPiece(l)];
    assert ps[1..] == qs + [TagPiece(l)];
    StagedLast(qs, l, j);
    AppendAssoc(Stage(k, j), Staged(qs, j), Stage(l, j));
  }

  lemma {:induction false} StagedLast(qs: seq<Piece>, l: nat, j: nat)
    requires l < 6
    ensures Staged(qs + [TagPiece(l)], j) == Staged(qs, j) + Stage(l, j)
    decreases |qs|
  {
    if qs == [] {
      assert qs + [TagPiece(l)] == [TagPiece(l)];
      assert Staged([TagPiece(l)], j) == Stage(l, j) + Staged([], j);
    } else {
      assert (qs + [TagPiece(l)])[1..] == qs[1..] + [TagPiece(l)];
      StagedLast(qs[1..], l, j);
      AppendAssoc(PieceAt(qs[0], j), Staged(qs[1..], j), Stage(l, j));
    }
  }

  lemma StagedOne(t: string, j: nat)
    ensures Staged([TextPiece(t)], j) == t
  {
    assert [TextPiece(t)][1..] == [];
  }

  /** The five pieces of `` `*w*` `` after `j` restorations. */
  lemma CodeItalicStaged(w: string, j: nat)
    ensures Staged(CodeItalicPieces(w), j)
      == Stage(4, j) + (Stage(2, j) + w + Stage(3, j)) + Stage(5, j)
  {
    var inner := [TagPiece(2)] + [TextPiece(w)] + [TagPiece(3)];
    assert CodeItalicPieces(w) == [TagPiece(4)] + inner + [TagPiece(5)];
    StagedAround(4, inner, 5, j);
    StagedAround(2, [TextPiece(w)], 3, j);
    StagedOne(w, j);
  }

  /** Escaping a text between two tags escapes each of the three. */
  lemma EscapeBetweenTags(k: nat, x: string, l: nat)
    requires k < 6 && l < 6
    ensures Escape(TagOf(k) + x + TagOf(l)) == Stage(k, 0) + Escape(x) + Stage(l, 0)
  {
    EscapeConcat(TagOf(k), x);
    EscapeConcat(TagOf(k) + x, TagOf(l));
    EscapeTagOf(k);
    EscapeTagOf(l);
  }

  lemma CodeItalicEscaped(w: string)
    requires PlainText(w)
    ensures Escape(TagOf(4) + (TagOf(2) + w + TagOf(3)) + TagOf(5)) == Staged(CodeItalicPieces(w), 0)
  {
    PlainTextChars(w);
    EscapePlain(w);
    EscapeBetweenTags(2, w, 3);
    EscapeBetweenTags(4, TagOf(2) + w + TagOf(3), 5);
    CodeItalicStaged(w, 0);
  }

  lemma CodeItalicRestored(w: string)
    requires PlainText(w)
    ensures RestoreTags(Staged(CodeItalicPieces(w), 0)) == TagOf(4) + (TagOf(2) + w + TagOf(3)) + TagOf(5)
  {
    var ps := CodeItalicPieces(w);
    assert AmpOnly(w) by {
      forall i | 0 <= i < |w| ensures w[i] != '&' { assert w[i] in w; }
    }
    assert ValidPieces(ps);
    RestorePieces(ps);
    CodeItalicStaged(w, 6);
  }

  /** Bold around a code span: the bold replacement escapes the font tags the
      code replacement has just written, and the six restorations do not
      undo that second escape, so the font tags show as text between `<b>`
      and `</b>` and no `<` is left between them. */
  lemma BoldAroundCode(w: string)
    requires PlainText(w) && w != []
    ensures ConvertInline("**`" + w + "`**")
      == BoldOpen + Escape(Escape(FontOpen + w + FontClose)) + BoldClose
    ensures '<' !in Escape(Escape(FontOpen + w + FontClose))
  {
    var m := "**`" + w + "`**";
    var f := FontOpen + w + FontClose;
    BoldCodeSubstituted(w);
    BoldCodeEnds(w);
    ConvertLine(m, 0, 1, f);
    BoldTags();
    EscapeRemovesAngles(Escape(f), '<');
  }

  lemma BoldCodeEnds(w: string)
    ensures var m := "**`" + w + "`**"; |m| >= 2 && m[0] == '*' && m[|m| - 1] == '*'
  {
  }

  /** A whole line that is one span. */
  lemma ConvertLine(m: string, a: nat, b: nat, w: string)
    requires a < 5 && b == a + 1
    requires |m| >= 2 && (m[0] == '`' || m[0] == '*') && (m[|m| - 1] == '`' || m[|m| - 1] == '*')
    requires SubItalic(SubBold(SubCode(m)), false) == TagOf(a) + Escape(w) + TagOf(b)
    ensures ConvertInline(m) == TagOf(a) + Escape(Escape(w)) + TagOf(b)
  {
    var none: string := [];
    assert TrimStart(none, IsSpace) == none && TrimEnd(none, IsSpace) == none;
    EmptyAround(m);
    EmptyAround(TagOf(a) + Escape(w) + TagOf(a + 1));
    EmptyAround(TagOf(a) + Escape(Escape(w)) + TagOf(a + 1));
    ConvertSpanIn(none, m, none, a, w);
  }

  lemma BoldCodeSubstituted(w: string)
    requires PlainText(w) && w != []
    ensures SubItalic(SubBold(SubCode("**`" + w + "`**")), false)
      == TagOf(0) + Escape(FontOpen + w + FontClose) + TagOf(1)
  {
    var f := FontOpen + w + FontClose;
    BoldCodeCoded(w);
    FontNoStar(w);
    BoldOfFont(f);
    SubstitutionsChain("**`" + w + "`**", "**" + f + "**", TagOf(0) + Escape(f) + TagOf(1),
      TagOf(0) + Escape(f) + TagOf(1));
  }

  lemma SubstitutionsChain(s: string, t1: string, t2: string, t3: string)
    requires SubCode(s) == t1 && SubBold(t1) == t2 && SubItalic(t2, false) == t3
    ensures SubItalic(SubBold(SubCode(s)), false) == t3
  {
  }

  lemma BoldCodeCoded(w: string)
    requires PlainText(w) && w != []
    ensures SubCode("**`" + w + "`**") == "**" + (FontOpen + w + FontClose) + "**"
  {
    assert "**" + ("`" + w + "`") + "**" == "**`" + w + "`**";
    SubCodeIn("**", w, "**");
    SubCodeNoTick("**");
    PlainTextChars(w);
    EscapePlain(w);
  }

  lemma FontNoStar(w: string)
    requires PlainText(w)
    ensures '*' !in FontOpen + w + FontClose
  {
    FontTags();
    TagOfNoStar(4);
    TagOfNoStar(5);
    NotInConcat3(FontOpen, w, FontClose, '*');
  }

  /** Bold text without `*` as the whole line: `<b>`, the escaped text,
      `</b>`, which the italic substitution leaves alone. */
  lemma BoldOfFont(f: string)
    requires '*' !in f && f != []
    ensures SubBold("**" + f + "**") == TagOf(0) + Escape(f) + TagOf(1)
    ensures SubItalic(TagOf(0) + Escape(f) + TagOf(1), false) == TagOf(0) + Escape(f) + TagOf(1)
  {
    BoldLine(f);
    BoldLineNoItalic(f);
  }

  lemma BoldLine(f: string)
    requires '*' !in f && f != []
    ensures SubBold("**" + f + "**") == TagOf(0) + Escape(f) + TagOf(1)
  {
    var none: string := [];
    BoldSpanBolded(none, f, none);
    EmptyAround("**" + f + "**");
    EmptyAround(TagOf(0) + Escape(f) + TagOf(1));
  }

  lemma BoldLineNoItalic(f: string)
    requires '*' !in f
    ensures SubItalic(TagOf(0) + Escape(f) + TagOf(1), false) == TagOf(0) + Escape(f) + TagOf(1)
  {
    EscapeRemovesAngles(f, '*');
    TagOfNoStar(0);
    TagOfNoStar(1);
    NotInConcat3(TagOf(0), Escape(f), TagOf(1), '*');
    SubItalicNoStar(TagOf(0) + Escape(f) + TagOf(1), false);
  }

  /** A code span that opens inside a bold span and closes after it: the bold
      span takes the opening font tag with it and escapes it, so the PDF shows
      that tag as text, and the closing `</font>` is left without a partner. */
  lemma CodeAcrossBold(x: string, y: string, z: string)
    requires PlainText(x) && PlainText(y) && PlainText(z)
    ensures ConvertInline("**" + x + "`" + y + "**" + z + "`")
      == BoldOpen + Escape(Escape(x + FontOpen + y)) + BoldClose + z + FontClose
    ensures '<' !in Escape(Escape(x + FontOpen + y)) && '<' !in z
  {
    var s := "**" + x + "`" + y + "**" + z + "`";
    var b := x + TagOf(4) + y;
    var t := TagOf(0) + Escape(b) + TagOf(1) + (z + TagOf(5));
    var ps := CrossedPieces(x, y, z);
    CrossedEnds(x, y, z);
    StripUnchanged(s);
    CrossedSubstituted(x, y, z);
    CrossedEscaped(x, y, z);
    CrossedRestored(x, y, z);
    ConvertThrough(s, t, Staged(ps, 0), TagOf(0) + Escape(Escape(b)) + TagOf(1) + z + TagOf(5));
    FontTags();
    BoldTags();
    EscapeRemovesAngles(Escape(b), '<');
  }

  lemma CrossedEnds(x: string, y: string, z: string)
    ensures var s := "**" + x + "`" + y + "**" + z + "`";
      s != [] && s[0] == '*' && s[|s| - 1] == '`'
  {
  }

  function CrossedPieces(x: string, y: string, z: string): seq<Piece> {
    [TagPiece(0), TextPiece(Escape(Escape(x + TagOf(4) + y))), TagPiece(1), TextPiece(z), TagPiece(5)]
  }

  lemma CrossedSubstituted(x: string, y: string, z: string)
    requires PlainText(x) && PlainText(y) && PlainText(z)
    ensures SubItalic(SubBold(SubCode("**" + x + "`" + y + "**" + z + "`")), false)
      == TagOf(0) + Escape(x + TagOf(4) + y) + TagOf(1) + (z + TagOf(5))
  {
    var b := x + TagOf(4) + y;
    var r := z + TagOf(5);
    CrossedCoded(x, y, z);
    FontNoStar(y);
    CrossedNoStar(x, y, z);
    BoldThenRest(b, r);
    SubstitutionsChain("**" + x + "`" + y + "**" + z + "`", "**" + b + "**" + r,
      TagOf(0) + Escape(b) + TagOf(1) + r, TagOf(0) + Escape(b) + TagOf(1) + r);
  }

  lemma CrossedNoStar(x: string, y: string, z: string)
    requires PlainText(x) && PlainText(y) && PlainText(z)
    ensures x + TagOf(4) + y != [] && '*' !in x + TagOf(4) + y && '*' !in z + TagOf(5)
  {
    TagOfNoStar(4);
    TagOfNoStar(5);
    NotInConcat3(x, TagOf(4), y, '*');
    assert TagOf(4)[0] == '<';
  }

  /** The code substitution over the whole line: the span runs from the
      backtick inside the bold markers to the one at the end. */
  lemma CrossedCoded(x: string, y: string, z: string)
    requires PlainText(x) && PlainText(y) && PlainText(z)
    ensures SubCode("**" + x + "`" + y + "**" + z + "`") == "**" + (x + TagOf(4) + y) + "**" + (z + TagOf(5))
  {
    var p := "**" + x;
    var w := y + "**" + z;
    var none: string := [];
    assert p + ("`" + w + "`") + none == "**" + x + "`" + y + "**" + z + "`";
    assert '`' !in p && '`' !in w;
    SubCodeIn(p, w, none);
    CrossedInnerEscaped(y, z);
    FontTags();
    CrossedRegroup("**", x, TagOf(4), y, z, TagOf(5));
  }

  lemma CrossedInnerEscaped(y: string, z: string)
    requires PlainText(y) && PlainText(z)
    ensures Escape(y + "**" + z) == y + "**" + z
  {
    PlainTextChars(y);
    PlainTextChars(z);
    EscapeConcat(y, "**");
    EscapeConcat(y + "**", z);
    EscapePlain(y);
    EscapePlain(z);
    EscapePlain("**");
  }

  lemma CrossedRegroup(m: string, x: string, f: string, y: string, z: string, g: string)
    ensures m + x + (f + (y + m + z) + g) + []
      == m + (x + f + y) + m + (z + g)
  {
  }

  /** Bold text `b` at the head of a line and text `r` without `*` after it. */
  lemma BoldThenRest(b: string, r: string)
    requires b != [] && '*' !in b && '*' !in r
    ensures SubBold("**" + b + "**" + r) == TagOf(0) + Escape(b) + TagOf(1) + r
    ensures SubItalic(TagOf(0) + Escape(b) + TagOf(1) + r, false) == TagOf(0) + Escape(b) + TagOf(1) + r
  {
    BoldHead(b, r);
    BoldHeadNoItalic(b, r);
  }

  lemma BoldHead(b: string, r: string)
    requires b != [] && '*' !in b && '*' !in r
    ensures SubBold("**" + b + "**" + r) == TagOf(0) + Escape(b) + TagOf(1) + r
  {
    var none: string := [];
    var m := "**" + b + "**";
    EmptyFront(m, r);
    SubBoldIn(none, b, r);
    NoStarNoPair(r);
    SubBoldNoStarPair(r);
    BoldTags();
    EmptyFront(TagOf(0) + Escape(b) + TagOf(1), r);
  }

  lemma BoldHeadNoItalic(b: string, r: string)
    requires '*' !in b && '*' !in r
    ensures SubItalic(TagOf(0) + Escape(b) + TagOf(1) + r, false) == TagOf(0) + Escape(b) + TagOf(1) + r
  {
    EscapeRemovesAngles(b, '*');
    TagOfNoStar(0);
    TagOfNoStar(1);
    NotInConcat3(TagOf(0), Escape(b), TagOf(1), '*');
    SubItalicNoStar(TagOf(0) + Escape(b) + TagOf(1) + r, false);
  }

  lemma StagedCons(p: Piece, qs: seq<Piece>, j: nat)
    ensures Staged([p] + qs, j) == PieceAt(p, j) + Staged(qs, j)
  {
    assert ([p] + qs)[1..] == qs;
  }

  /** Staged text of five pieces. */
  lemma StagedFive(p0: Piece, p1: Piece, p2: Piece, p3: Piece, p4: Piece, j: nat)
    ensures Staged([p0, p1, p2, p3, p4], j)
      == PieceAt(p0, j) + PieceAt(p1, j) + PieceAt(p2, j) + PieceAt(p3, j) + PieceAt(p4, j)
  {
    var none: seq<Piece> := [];
    assert [p0, p1, p2, p3, p4] == [p0] + [p1, p2, p3, p4];
    assert [p1, p2, p3, p4] == [p1] + [p2, p3, p4];
    assert [p2, p3, p4] == [p2] + [p3, p4];
    assert [p3, p4] == [p3] + [p4];
    assert [p4] == [p4] + none;
    StagedCons(p0, [p1, p2, p3, p4], j);
    StagedCons(p1, [p2, p3, p4], j);
    StagedCons(p2, [p3, p4], j);
    StagedCons(p3, [p4], j);
    StagedCons(p4, none, j);
    RightToLeft(PieceAt(p0, j), PieceAt(p1, j), PieceAt(p2, j), PieceAt(p3, j), PieceAt(p4, j));
  }

  lemma RightToLeft(a: string, b: string, c: string, d: string, e: string)
    ensures a + (b + (c + (d + (e + [])))) == a + b + c + d + e
  {
  }

  lemma CrossedEscaped(x: string, y: string, z: string)
    requires PlainText(x) && PlainText(y) && PlainText(z)
    ensures var b := x + TagOf(4) + y;
      Escape(TagOf(0) + Escape(b) + TagOf(1) + (z + TagOf(5))) == Staged(CrossedPieces(x, y, z), 0)
  {
    var e := Escape(x + TagOf(4) + y);
    EscapeBoldThenRest(e, z);
    StagedFive(TagPiece(0), TextPiece(Escape(e)), TagPiece(1), TextPiece(z), TagPiece(5), 0);
  }

  lemma EscapeBoldThenRest(e: string, z: string)
    requires PlainText(z)
    ensures Escape(TagOf(0) + e + TagOf(1) + (z + TagOf(5)))
      == Stage(0, 0) + Escape(e) + Stage(1, 0) + z + Stage(5, 0)
  {
    EscapeBetweenTags(0, e, 1);
    EscapeConcat(TagOf(0) + e + TagOf(1), z + TagOf(5));
    EscapeConcat(z, TagOf(5));
    PlainTextChars(z);
    EscapePlain(z);
    EscapeTagOf(5);
  }

  lemma CrossedRestored(x: string, y: string, z: string)
    requires PlainText(x) && PlainText(y) && PlainText(z)
    ensures RestoreTags(Staged(CrossedPieces(x, y, z), 0))
      == TagOf(0) + Escape(Escape(x + TagOf(4) + y)) + TagOf(1) + z + TagOf(5)
  {
    var b := x + TagOf(4) + y;
    var ps := CrossedPieces(x, y, z);
    EscapeRemovesAngles(b, '<');
    EscapeRemovesAngles(b, '>');
    EscapeAmpOnly(Escape(b));
    assert AmpOnly(z) by {
      forall i | 0 <= i < |z| ensures z[i] != '&' { assert z[i] in z; }
    }
    assert ValidPieces(ps);
    RestorePieces(ps);
    StagedFive(ps[0], ps[1], ps[2], ps[3], ps[4], 6);
  }
}
