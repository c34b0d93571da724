/** XML escaping as `xml.sax.saxutils.escape` does it, and the small markup
    vocabulary the converter emits: six tags and three character entities.

    `IsMarkup(s)` says that `s` splits, from the left, into tokens each of which
    is a character other than `<`, `>` and `&`, one of the entities `&amp;`,
    `&lt;`, `&gt;`, or one of the six tags.  Escaping produces such a string,
    and replacing the escaped form of a tag by the tag keeps it one. */
module Markup {
  import opened Text

  const BoldOpen: string := "<b>"
  const BoldClose: string := "</b>"
  const ItalicOpen: string := "<i>"
  const ItalicClose: string := "</i>"
  const FontOpen: string := "<font face=\"Courier\">"
  const FontClose: string := "</font>"

  predicate IsTag(t: string) {
    t == BoldOpen || t == BoldClose || t == ItalicOpen || t == ItalicClose
    || t == FontOpen || t == FontClose
  }

  predicate StartsWithTag(s: string) {
    StartsWith(s, BoldOpen) || StartsWith(s, BoldClose) || StartsWith(s, ItalicOpen)
    || StartsWith(s, ItalicClose) || StartsWith(s, FontOpen) || StartsWith(s, FontClose)
  }

  predicate EndsWith(s: string, t: string) {
    |t| <= |s| && s[|s| - |t|..] == t
  }

  predicate EndsWithTag(s: string) {
    EndsWith(s, BoldOpen) || EndsWith(s, BoldClose) || EndsWith(s, ItalicOpen)
    || EndsWith(s, ItalicClose) || EndsWith(s, FontOpen) || EndsWith(s, FontClose)
  }

  predicate StartsWithEntity(s: string) {
    StartsWith(s, "&amp;") || StartsWith(s, "&lt;") || StartsWith(s, "&gt;")
  }

  /** A character that escaping leaves alone. */
  predicate IsPlainChar(c: char) {
    c != '<' && c != '>' && c != '&'
  }

  function EscapeChar(c: char): string {
    if c == '&' then "&amp;" else if c == '<' then "&lt;" else if c == '>' then "&gt;" else [c]
  }

  /** `escape(s)` from `xml.sax.saxutils`: `&`, `<` and `>` become entities. */
  function Escape(s: string): string {
    if s == [] then [] else EscapeChar(s[0]) + Escape(s[1..])
  }

  /** No `<` or `>` survives escaping, and escaping brings in no character
      other than those spelling the three entities. */
  lemma {:induction false} EscapeRemovesAngles(s: string, c: char)
    ensures c == '<' || c == '>' ==> c !in Escape(s)
    ensures c !in s && c !in "&amp;lt;gt;" ==> c !in Escape(s)
  {
    if s != [] {
      EscapeRemovesAngles(s[1..], c);
      assert c in Escape(s) <==> c in EscapeChar(s[0]) || c in Escape(s[1..]);
      assert c in s <==> c == s[0] || c in s[1..];
    }
  }

  lemma {:induction false} EscapeConcat(a: string, b: string)
    ensures Escape(a + b) == Escape(a) + Escape(b)
  {
    if a != [] {
      calc {
        Escape(a + b);
        { assert (a + b)[0] == a[0]; }
        EscapeChar(a[0]) + Escape((a + b)[1..]);
        { assert (a + b)[1..] == a[1..] + b; EscapeConcat(a[1..], b); }
        EscapeChar(a[0]) + (Escape(a[1..]) + Escape(b));
        (EscapeChar(a[0]) + Escape(a[1..])) + Escape(b);
      }
    } else {
      assert a + b == b;
    }
  }

  /** Escaping changes nothing in a string without `&`, `<` and `>`. */
  lemma {:induction false} EscapePlain(s: string)
    requires forall i :: 0 <= i < |s| ==> IsPlainChar(s[i])
    ensures Escape(s) == s
  {
    if s != [] {
      EscapePlain(s[1..]);
    }
  }

  /** Escaping a string that has no `<` or `>` yields `&` only as the start
      of `&amp;`. */
  lemma {:induction false} EscapeAmpOnly(s: string)
    requires '<' !in s && '>' !in s
    ensures AmpOnly(Escape(s))
  {
    if s != [] {
      NotInTail(s, '<');
      NotInTail(s, '>');
      EscapeAmpOnly(s[1..]);
      EscapeCharAmpOnly(s[0]);
      AmpOnlyConcat(EscapeChar(s[0]), Escape(s[1..]));
    }
  }

  lemma NotInTail(s: string, c: char)
    requires s != [] && c !in s
    ensures s[0] != c && c !in s[1..]
  {
    assert s == [s[0]] + s[1..];
  }

  lemma EscapeCharAmpOnly(c: char)
    requires c != '<' && c != '>'
    ensures AmpOnly(EscapeChar(c))
  {
    var e := EscapeChar(c);
    if c == '&' {
      assert e == "&amp;";
      assert e[0..] == e;
    }
  }

  /** Replacing a one-character pattern distributes over concatenation. */
  lemma {:induction false} ReplaceCharConcat(a: string, b: string, c: char, rep: string)
    ensures Replace(a + b, [c], rep) == Replace(a, [c], rep) + Replace(b, [c], rep)
    decreases |a|
  {
    if a != [] {
      assert (a + b)[1..] == a[1..] + b;
      assert StartsWith(a + b, [c]) <==> StartsWith(a, [c]);
      ReplaceCharConcat(a[1..], b, c, rep);
    } else {
      assert a + b == b;
    }
  }

  /** The three replacements `escape` performs, in its order. */
  function ChainedReplace(s: string): string {
    Replace(Replace(Replace(s, "&", "&amp;"), ">", "&gt;"), "<", "&lt;")
  }

  lemma ChainedReplaceChar(c: char)
    ensures ChainedReplace([c]) == EscapeChar(c)
  {
    var r1 := Replace([c], "&", "&amp;");
    if c == '&' {
      assert StartsWith([c], "&");
      assert r1 == "&amp;" + Replace([], "&", "&amp;");
    } else {
      ReplaceAbsent([c], "&", "&amp;");
    }
    var r2 := Replace(r1, ">", "&gt;");
    if c == '>' {
      assert StartsWith([c], ">");
      assert r2 == "&gt;" + Replace([], ">", "&gt;");
    } else {
      ReplaceAbsent(r1, ">", "&gt;");
    }
    if c == '<' {
      assert StartsWith([c], "<");
      assert Replace(r2, "<", "&lt;") == "&lt;" + Replace([], "<", "&lt;");
    } else {
      ReplaceAbsent(r2, "<", "&lt;");
    }
  }

  /** A string without the pattern's first character is left alone. */
  lemma ReplaceAbsent(s: string, p: string, t: string)
    requires p != [] && p[0] !in s
    ensures Replace(s, p, t) == s
  {
    InertWithoutFirst(s, p);
    ReplaceSettledAlone(s, p, t);
  }

  /** `Escape`, written character by character, is the chain of `replace`
      calls that `escape` makes: `&` first, so that the ampersands of the
      entities brought in later are not escaped again. */
  lemma {:induction false} EscapeIsChainedReplace(s: string)
    ensures Escape(s) == ChainedReplace(s)
  {
    if s != [] {
      EscapeIsChainedReplace(s[1..]);
      ChainedReplaceChar(s[0]);
      assert s == [s[0]] + s[1..];
      var a, b := [s[0]], s[1..];
      ReplaceCharConcat(a, b, '&', "&amp;");
      var a1, b1 := Replace(a, "&", "&amp;"), Replace(b, "&", "&amp;");
      ReplaceCharConcat(a1, b1, '>', "&gt;");
      var a2, b2 := Replace(a1, ">", "&gt;"), Replace(b1, ">", "&gt;");
      ReplaceCharConcat(a2, b2, '<', "&lt;");
    }
  }

  /** Every `&` of `s` starts an `&amp;`. */
  predicate AmpOnly(s: string) {
    forall i :: 0 <= i < |s| && s[i] == '&' ==> StartsWith(s[i..], "&amp;")
  }

  lemma AmpOnlyConcat(a: string, b: string)
    requires AmpOnly(a) && AmpOnly(b)
    ensures AmpOnly(a + b)
  {
    forall i | 0 <= i < |a + b| && (a + b)[i] == '&'
      ensures StartsWith((a + b)[i..], "&amp;")
    {
      if i < |a| {
        assert StartsWith(a[i..], "&amp;");
        assert (a + b)[i..i + 5] == a[i..i + 5];
      } else {
        assert (a + b)[i..] == b[i - |a|..];
      }
    }
  }

  // ----- the token grammar -----

  predicate IsEntity(e: string) {
    e == "&amp;" || e == "&lt;" || e == "&gt;"
  }

  /** Length of the markup token at the start of `s`: 1 for a plain
      character, the entity's or the tag's length, 0 when `s` starts with none. */
  function TokenLen(s: string): (n: nat)
    ensures n <= |s|
  {
    if s == [] then 0
    else if IsPlainChar(s[0]) then 1
    else if StartsWith(s, "&amp;") then 5
    else if StartsWith(s, "&lt;") || StartsWith(s, "&gt;") then 4
    else if StartsWith(s, BoldOpen) || StartsWith(s, ItalicOpen) then 3
    else if StartsWith(s, BoldClose) || StartsWith(s, ItalicClose) then 4
    else if StartsWith(s, FontOpen) then |FontOpen|
    else if StartsWith(s, FontClose) then |FontClose|
    else 0
  }

  predicate IsMarkup(s: string)
    decreases |s|
  {
    s == [] || (TokenLen(s) > 0 && IsMarkup(s[TokenLen(s)..]))
  }

  /** A token is a plain character, an entity or a tag. */
  lemma TokenKinds(s: string)
    requires TokenLen(s) > 0
    ensures var n := TokenLen(s);
      (n == 1 && IsPlainChar(s[0])) || IsEntity(s[..n]) || IsTag(s[..n])
  {
  }

  /** Whatever follows an entity or a tag, the token there is that entity
      or tag. */
  lemma TokenLenOf(t: string, z: string)
    requires IsEntity(t) || IsTag(t)
    ensures TokenLen(t + z) == |t|
  {
    var x := t + z;
    assert x[..|t|] == t;
    assert x[0] == t[0] && x[1] == t[1];
    if t == BoldClose || t == ItalicClose || t == FontClose {
      assert x[2] == t[2];
    }
  }

  lemma TokenLenExtend(s: string, z: string)
    requires TokenLen(s) > 0
    ensures TokenLen(s[..TokenLen(s)] + z) == TokenLen(s)
  {
    var n := TokenLen(s);
    TokenKinds(s);
    if !IsPlainChar(s[0]) {
      TokenLenOf(s[..n], z);
    }
  }

  /** Inside a token, `<` and `&` occur only in first place and `>` only in
      last place, and then the token is a tag or an entity. */
  lemma TokenInterior(s: string, k: nat)
    requires k < TokenLen(s)
    ensures s[k] == '<' ==> k == 0 && StartsWithTag(s)
    ensures s[k] == '&' ==> k == 0 && StartsWithEntity(s)
    ensures s[k] == '>' ==> IsTag(s[..k + 1])
  {
    var n := TokenLen(s);
    TokenKinds(s);
    if !IsPlainChar(s[0]) {
      var t := s[..n];
      assert s[k] == t[k];
      if s[k] == '>' {
        assert k == n - 1;
        assert s[..k + 1] == t;
      }
    }
  }

  /** A tag is a single token. */
  lemma MarkupTag(t: string)
    requires IsTag(t)
    ensures TokenLen(t) == |t| && IsMarkup(t)
  {
    TokenLenOf(t, []);
    assert t + [] == t;
    assert t[|t|..] == [];
  }

  lemma {:induction false} MarkupAppend(a: string, b: string)
    requires IsMarkup(a) && IsMarkup(b)
    ensures IsMarkup(a + b)
    decreases |a|
  {
    if a != [] {
      var n := TokenLen(a);
      MarkupAppend(a[n..], b);
      MarkupStep(a, b);
    } else {
      assert a + b == b;
    }
  }

  /** The first token of a string followed by markup is markup. */
  lemma MarkupPrepend(s: string, rest: string)
    requires TokenLen(s) > 0 && IsMarkup(rest)
    ensures IsMarkup(s[..TokenLen(s)] + rest)
  {
    var n := TokenLen(s);
    TokenLenExtend(s, rest);
    assert (s[..n] + rest)[n..] == rest;
    MarkupCons(s[..n] + rest, n);
  }

  /** When what follows the first token of `a`, followed by `b`, is markup,
      so is `a + b`. */
  lemma MarkupStep(a: string, b: string)
    requires TokenLen(a) > 0 && IsMarkup(a[TokenLen(a)..] + b)
    ensures IsMarkup(a + b)
  {
    var n := TokenLen(a);
    MarkupPrepend(a, a[n..] + b);
    ConcatSplit(a, b, n);
  }

  lemma ConcatSplit(a: string, b: string, n: nat)
    requires n <= |a|
    ensures a + b == a[..n] + (a[n..] + b)
  {
    assert a == a[..n] + a[n..];
  }

  /** A token followed by markup is markup. */
  lemma MarkupCons(s: string, n: nat)
    requires 0 < n <= |s| && TokenLen(s) == n && IsMarkup(s[n..])
    ensures IsMarkup(s)
  {
  }

  lemma {:induction false} MarkupEscapeChar(c: char)
    ensures IsMarkup(EscapeChar(c))
  {
    var e := EscapeChar(c);
    if !IsPlainChar(c) {
      TokenLenOf(e, []);
      assert e + [] == e;
    }
    assert e[|e|..] == [];
  }

  /** Escaping yields markup without tags. */
  lemma {:induction false} MarkupEscape(s: string)
    ensures IsMarkup(Escape(s))
  {
    if s != [] {
      MarkupEscapeChar(s[0]);
      MarkupEscape(s[1..]);
      MarkupAppend(EscapeChar(s[0]), Escape(s[1..]));
    }
  }

  /** Removing a markup prefix from markup leaves markup. */
  lemma {:induction false} MarkupDropPrefix(s: string, p: string)
    requires IsMarkup(s) && IsMarkup(p) && StartsWith(s, p)
    ensures IsMarkup(s[|p|..])
    decreases |p|
  {
    if p != [] {
      var m := TokenLen(p);
      assert s == p[..m] + s[m..];
      TokenLenExtend(p, s[m..]);
      assert StartsWith(s[m..], p[m..]);
      MarkupDropPrefix(s[m..], p[m..]);
      assert s[m..][|p| - m..] == s[|p|..];
    }
  }

  /** In markup every `<` begins one of the six tags, every `&` begins an
      entity and every `>` ends one of the six tags. */
  lemma {:induction false} MarkupChars(s: string, k: nat)
    requires IsMarkup(s) && k < |s|
    ensures s[k] == '<' ==> StartsWithTag(s[k..])
    ensures s[k] == '&' ==> StartsWithEntity(s[k..])
    ensures s[k] == '>' ==> EndsWithTag(s[..k + 1])
    decreases |s|
  {
    var n := TokenLen(s);
    if k < n {
      CharsInToken(s, k);
    } else {
      MarkupChars(s[n..], k - n);
      CharsShift(s, n, k);
    }
  }

  lemma CharsInToken(s: string, k: nat)
    requires k < TokenLen(s)
    ensures s[k] == '<' ==> StartsWithTag(s[k..])
    ensures s[k] == '&' ==> StartsWithEntity(s[k..])
    ensures s[k] == '>' ==> EndsWithTag(s[..k + 1])
  {
    TokenInterior(s, k);
    if s[k] == '>' {
      assert s[..k + 1][k + 1 - (k + 1)..] == s[..k + 1];
    }
  }

  /** What holds at index `k - n` of `s[n..]` holds at index `k` of `s`. */
  lemma CharsShift(s: string, n: nat, k: nat)
    requires n <= k < |s|
    requires var rest := s[n..];
      && (rest[k - n] == '<' ==> StartsWithTag(rest[k - n..]))
      && (rest[k - n] == '&' ==> StartsWithEntity(rest[k - n..]))
      && (rest[k - n] == '>' ==> EndsWithTag(rest[..k - n + 1]))
    ensures s[k] == '<' ==> StartsWithTag(s[k..])
    ensures s[k] == '&' ==> StartsWithEntity(s[k..])
    ensures s[k] == '>' ==> EndsWithTag(s[..k + 1])
  {
    var rest := s[n..];
    SuffixOfSuffix(s, n, k - n);
    assert rest[k - n] == s[k];
    if s[k] == '>' {
      PrefixSplit(s, n, k + 1);
      EndsWithTagExtend(s[..n], rest[..k - n + 1]);
    }
  }

  lemma SuffixOfSuffix(s: string, n: nat, j: nat)
    requires n + j <= |s|
    ensures s[n..][j..] == s[n + j..]
  {
  }

  lemma PrefixSplit(s: string, n: nat, m: nat)
    requires n <= m <= |s|
    ensures s[..m] == s[..n] + s[n..][..m - n]
  {
  }

  lemma EndsWithExtend(a: string, u: string, t: string)
    requires EndsWith(u, t)
    ensures EndsWith(a + u, t)
  {
    assert (a + u)[|a + u| - |t|..] == u[|u| - |t|..];
  }

  lemma EndsWithTagExtend(a: string, u: string)
    requires EndsWithTag(u)
    ensures EndsWithTag(a + u)
  {
    if EndsWith(u, BoldOpen) { EndsWithExtend(a, u, BoldOpen); }
    if EndsWith(u, BoldClose) { EndsWithExtend(a, u, BoldClose); }
    if EndsWith(u, ItalicOpen) { EndsWithExtend(a, u, ItalicOpen); }
    if EndsWith(u, ItalicClose) { EndsWithExtend(a, u, ItalicClose); }
    if EndsWith(u, FontOpen) { EndsWithExtend(a, u, FontOpen); }
    if EndsWith(u, FontClose) { EndsWithExtend(a, u, FontClose); }
  }

  // ----- replacement over markup -----

  /** `x` and `p` differ at some index below both lengths. */
  predicate Diverges(x: string, p: string)
    decreases |x|
  {
    x != [] && p != [] && (x[0] != p[0] || Diverges(x[1..], p[1..]))
  }

  /** No occurrence of `p` can start inside `x`, whatever follows `x`. */
  predicate Inert(x: string, p: string)
    decreases |x|
  {
    x == [] || (Diverges(x, p) && Inert(x[1..], p))
  }

  lemma {:induction false} DivergesNotPrefix(x: string, y: string, p: string)
    requires Diverges(x, p)
    ensures !StartsWith(x + y, p)
    decreases |x|
  {
    if x[0] == p[0] {
      DivergesNotPrefix(x[1..], y, p[1..]);
      assert (x + y)[1..] == x[1..] + y;
      StartsWithTail(x + y, p);
    }
  }

  lemma StartsWithTail(s: string, p: string)
    requires s != [] && p != []
    ensures StartsWith(s, p) ==> StartsWith(s[1..], p[1..])
  {
    if StartsWith(s, p) {
      assert s[1..][..|p| - 1] == s[..|p|][1..];
    }
  }

  lemma {:induction false} DivergesExtend(x: string, y: string, p: string)
    requires Diverges(x, p)
    ensures Diverges(x + y, p)
    decreases |x|
  {
    if x[0] == p[0] {
      assert (x + y)[1..] == x[1..] + y;
      DivergesExtend(x[1..], y, p[1..]);
    }
  }

  lemma {:induction false} InertConcat(a: string, b: string, p: string)
    requires Inert(a, p) && Inert(b, p)
    ensures Inert(a + b, p)
    decreases |a|
  {
    if a != [] {
      DivergesExtend(a, b, p);
      assert (a + b)[1..] == a[1..] + b;
      InertConcat(a[1..], b, p);
    } else {
      assert a + b == b;
    }
  }

  /** A string without the pattern's first character holds no occurrence. */
  lemma {:induction false} InertWithoutFirst(x: string, p: string)
    requires p != [] && p[0] !in x
    ensures Inert(x, p)
    decreases |x|
  {
    if x != [] {
      InertWithoutFirst(x[1..], p);
    }
  }

  /** Under `AmpOnly`, a pattern that starts with `&l` never occurs. */
  lemma {:induction false} InertAmpOnly(x: string, p: string)
    requires AmpOnly(x) && |p| >= 2 && p[0] == '&' && p[1] == 'l'
    ensures Inert(x, p)
    decreases |x|
  {
    if x != [] {
      if x[0] == '&' {
        assert StartsWith(x[0..], "&amp;");
        assert x[1] == 'a';
        assert Diverges(x[1..], p[1..]);
      }
      assert AmpOnly(x[1..]) by {
        forall i | 0 <= i < |x[1..]| && x[1..][i] == '&' ensures StartsWith(x[1..][i..], "&amp;") {
          assert x[1..][i..] == x[i + 1..];
        }
      }
      InertAmpOnly(x[1..], p);
    }
  }

  /** Replacement passes over a prefix in which no occurrence starts. */
  lemma {:induction false} ReplaceInert(x: string, y: string, p: string, t: string)
    requires p != [] && Inert(x, p)
    ensures Replace(x + y, p, t) == x + Replace(y, p, t)
    decreases |x|
  {
    if x != [] {
      DivergesNotPrefix(x, y, p);
      assert (x + y)[1..] == x[1..] + y;
      ReplaceInert(x[1..], y, p, t);
    } else {
      assert x + y == y;
    }
  }

  lemma EscapedTagStart(t: string)
    requires IsTag(t)
    ensures Escape(t) != [] && Escape(t)[0] == '&'
  {
    assert t[0] == '<';
    assert Escape(t) == EscapeChar(t[0]) + Escape(t[1..]);
  }

  /** Replacing a markup pattern that starts with `&` by markup (the escaped
      form of a tag by the tag, say) keeps a string markup. */
  lemma {:induction false} ReplaceKeepsMarkup(s: string, p: string, t: string)
    requires IsMarkup(s) && IsMarkup(p) && IsMarkup(t) && p != [] && p[0] == '&'
    ensures IsMarkup(Replace(s, p, t))
    decreases |s|
  {
    if s != [] {
      if StartsWith(s, p) {
        MarkupDropPrefix(s, p);
        ReplaceKeepsMarkup(s[|p|..], p, t);
        MarkupAppend(t, Replace(s[|p|..], p, t));
      } else {
        ReplaceTokenStep(s, p, t);
        ReplaceKeepsMarkup(s[TokenLen(s)..], p, t);
        var n := TokenLen(s);
        TokenLenExtend(s, []);
        assert s[..n] + [] == s[..n];
        assert s[..n][n..] == [];
        MarkupAppend(s[..n], Replace(s[n..], p, t));
      }
    }
  }

  /** Where no occurrence starts, replacement passes over a whole token. */
  lemma ReplaceTokenStep(s: string, p: string, t: string)
    requires IsMarkup(s) && s != [] && p != [] && p[0] == '&' && !StartsWith(s, p)
    ensures Replace(s, p, t) == s[..TokenLen(s)] + Replace(s[TokenLen(s)..], p, t)
  {
    var n := TokenLen(s);
    var inner := s[1..n];
    TokenTailNoAmp(s);
    InertWithoutFirst(inner, p);
    SliceSplit(s, 1, n);
    ReplaceInert(inner, s[n..], p, t);
    assert Replace(s, p, t) == [s[0]] + Replace(s[1..], p, t);
    HeadSplit(s, n);
    AppendAssoc([s[0]], inner, Replace(s[n..], p, t));
  }

  lemma SliceSplit(s: string, i: nat, j: nat)
    requires i <= j <= |s|
    ensures s[i..] == s[i..j] + s[j..]
  {
  }

  lemma HeadSplit(s: string, n: nat)
    requires 1 <= n <= |s|
    ensures s[..n] == [s[0]] + s[1..n]
  {
  }

  lemma TokenTailNoAmp(s: string)
    requires TokenLen(s) > 0
    ensures '&' !in s[1..TokenLen(s)]
  {
    var n := TokenLen(s);
    forall i | 1 <= i < n ensures s[i] != '&' {
      TokenInterior(s, i);
    }
  }

  // ----- escaped tags against each other -----

  /** The escaped form of the tag whose name (the text between `<` and `>`)
      is `name`. */
  function EscapedTag(name: string): string {
    "&lt;" + name + "&gt;"
  }

  /** Two strings whose differing names contain no `&` and are each followed
      by an `&` differ at some index. */
  lemma {:induction false} DivergesAtNames(n1: string, z1: string, n2: string, z2: string)
    requires '&' !in n1 && '&' !in n2 && n1 != n2
    requires z1 != [] && z1[0] == '&' && z2 != [] && z2[0] == '&'
    ensures Diverges(n1 + z1, n2 + z2)
    decreases |n1|
  {
    if n1 == [] {
      assert (n2 + z2)[0] == n2[0];
    } else if n2 == [] {
      assert (n1 + z1)[0] == n1[0];
    } else if n1[0] == n2[0] {
      assert n1[1..] != n2[1..] by { assert n1 == [n1[0]] + n1[1..] && n2 == [n2[0]] + n2[1..]; }
      DivergesAtNames(n1[1..], z1, n2[1..], z2);
      assert (n1 + z1)[1..] == n1[1..] + z1;
      assert (n2 + z2)[1..] == n2[1..] + z2;
    }
  }

  /** A common prefix does not change whether two strings differ. */
  lemma {:induction false} DivergesCommonPrefix(c: string, x: string, y: string)
    requires Diverges(x, y)
    ensures Diverges(c + x, c + y)
    decreases |c|
  {
    if c != [] {
      DivergesCommonPrefix(c[1..], x, y);
      assert (c + x)[1..] == c[1..] + x;
      assert (c + y)[1..] == c[1..] + y;
    } else {
      assert c + x == x && c + y == y;
    }
  }

  /** No occurrence of the escaped form of one tag starts anywhere inside the
      escaped form of a tag with another name. */
  lemma InertEscapedTag(n1: string, n2: string)
    requires '&' !in n1 && '&' !in n2 && n1 != n2
    ensures Inert(EscapedTag(n1), EscapedTag(n2))
  {
    var p := EscapedTag(n2);
    var x := EscapedTag(n1);
    assert p[0] == '&' && p[1] == 'l';
    DivergesAtNames(n1, "&gt;", n2, "&gt;");
    DivergesCommonPrefix("&lt;", n1 + "&gt;", n2 + "&gt;");
    assert x == "&lt;" + (n1 + "&gt;") && p == "&lt;" + (n2 + "&gt;");
    assert x[1..] == ("lt;" + n1) + "&gt;";
    InertWithoutFirst("lt;" + n1, p);
    assert Diverges("&gt;", p) by { assert "&gt;"[1] != p[1]; }
    InertWithoutFirst("gt;", p);
    assert Inert("&gt;", p) by { assert "&gt;"[1..] == "gt;"; }
    InertConcat("lt;" + n1, "&gt;", p);
  }

  /** `x` is the pattern itself, or no occurrence of it starts inside `x`. */
  predicate Settled(x: string, p: string) {
    x == p || Inert(x, p)
  }

  /** Replacement in a string made of two settled pieces around a piece in
      which every `&` begins `&amp;`, for a pattern beginning `&l`, amid
      text without `&`: each settled piece becomes `t` exactly when it is the
      pattern (the outcome is named `x2` and `y2`), and everything else is
      kept. */
  lemma ReplaceAroundIn(u: string, x: string, v: string, y: string, u2: string,
                        p: string, t: string, x2: string, y2: string)
    requires |p| >= 2 && p[0] == '&' && p[1] == 'l'
    requires '&' !in u && '&' !in u2
    requires Settled(x, p) && AmpOnly(v) && Settled(y, p)
    requires (if x == p then t else x) == x2 && (if y == p then t else y) == y2
    ensures Replace(u + (x + v + y) + u2, p, t) == u + (x2 + v + y2) + u2
  {
    InertWithoutFirst(u, p);
    InertAmpOnly(v, p);
    Regroup(u, x, v, y, u2);
    Regroup(u, x2, v, y2, u2);
    ReplaceInert(u, x + (v + (y + u2)), p, t);
    ReplaceSettled(x, v + (y + u2), p, t);
    ReplaceInert(v, y + u2, p, t);
    ReplaceSettled(y, u2, p, t);
    ReplaceAbsent(u2, p, t);
  }

  lemma Regroup(u: string, x: string, v: string, y: string, u2: string)
    ensures u + (x + v + y) + u2 == u + (x + (v + (y + u2)))
  {
  }

  lemma EscapedTagHead(name: string)
    ensures |EscapedTag(name)| >= 2 && EscapedTag(name)[0] == '&' && EscapedTag(name)[1] == 'l'
  {
  }

  lemma ReplaceSettledAlone(y: string, p: string, t: string)
    requires p != [] && Settled(y, p)
    ensures Replace(y, p, t) == if y == p then t else y
  {
    ReplaceSettled(y, [], p, t);
    assert y + [] == y;
  }

  /** Replacement over a settled lead piece. */
  lemma ReplaceSettled(x: string, rest: string, p: string, t: string)
    requires p != [] && Settled(x, p)
    ensures Replace(x + rest, p, t) == (if x == p then t else x) + Replace(rest, p, t)
  {
    if x == p {
      assert StartsWith(x + rest, p);
      assert (x + rest)[|p|..] == rest;
    } else {
      ReplaceInert(x, rest, p, t);
    }
  }
}
