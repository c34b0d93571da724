/** The few operations on Python `str` values that the converter relies on:
    whitespace, `strip`/`lstrip`/`rstrip`, `split`, `replace`, `startswith`
    and `lower`.  Strings are sequences of Unicode scalar values. */
module Text {

  datatype Option<T> = None | Some(value: T)

  /** Python's `str.isspace()` for one character (the characters `strip()`
      removes when it is given no argument). */
  predicate IsSpace(c: char) {
    ('\t' <= c <= '\r') || ('\U{1C}' <= c <= '\U{1F}') || c == ' '
    || c == '\U{85}' || c == '\U{A0}' || c == '\U{1680}'
    || ('\U{2000}' <= c <= '\U{200A}') || c == '\U{2028}' || c == '\U{2029}'
    || c == '\U{202F}' || c == '\U{205F}' || c == '\U{3000}'
  }

  predicate AllSpace(s: string) {
    forall i :: 0 <= i < |s| ==> IsSpace(s[i])
  }

  /** `s.startswith(p)` */
  predicate StartsWith(s: string, p: string) {
    |p| <= |s| && s[..|p|] == p
  }

  lemma AppendAssoc<T>(a: seq<T>, b: seq<T>, c: seq<T>)
    ensures a + b + c == a + (b + c)
  {
  }

  /** A string that starts with `p` is `p` followed by the rest. */
  lemma StartsWithSplit(s: string, p: string)
    requires StartsWith(s, p)
    ensures s == p + s[|p|..]
  {
    assert s == s[..|p|] + s[|p|..];
  }

  /** `s.lstrip(chars)`, the characters to drop given as a predicate. */
  function TrimStart(s: string, drop: char -> bool): string {
    if s != [] && drop(s[0]) then TrimStart(s[1..], drop) else s
  }

  /** `s.rstrip(chars)`, the characters to drop given as a predicate. */
  function TrimEnd(s: string, drop: char -> bool): string {
    if s != [] && drop(s[|s| - 1]) then TrimEnd(s[..|s| - 1], drop) else s
  }

  /** `lstrip` removes a prefix of dropped characters and stops at the
      first character it keeps. */
  lemma {:induction false} TrimStartSpec(s: string, drop: char -> bool)
    ensures var r := TrimStart(s, drop);
      && |r| <= |s| && r == s[|s| - |r|..]
      && (forall i :: 0 <= i < |s| - |r| ==> drop(s[i]))
      && (r != [] ==> !drop(r[0]))
  {
    if s != [] && drop(s[0]) {
      var t := s[1..];
      TrimStartSpec(t, drop);
      var r := TrimStart(t, drop);
      assert TrimStart(s, drop) == r;
      assert r == s[|s| - |r|..] by {
        assert t[|t| - |r|..] == s[|s| - |r|..];
      }
      forall i | 0 <= i < |s| - |r| ensures drop(s[i]) {
        if i > 0 {
          assert s[i] == t[i - 1];
        }
      }
    }
  }

  /** `rstrip` removes a suffix of dropped characters and stops at the last
      character it keeps. */
  lemma {:induction false} TrimEndSpec(s: string, drop: char -> bool)
    ensures var r := TrimEnd(s, drop);
      && |r| <= |s| && r == s[..|r|]
      && (forall i :: |r| <= i < |s| ==> drop(s[i]))
      && (r != [] ==> !drop(r[|r| - 1]))
  {
    if s != [] && drop(s[|s| - 1]) {
      var t := s[..|s| - 1];
      TrimEndSpec(t, drop);
      var r := TrimEnd(t, drop);
      assert TrimEnd(s, drop) == r;
      assert r == s[..|r|] by {
        assert t[..|r|] == s[..|r|];
      }
      forall i | |r| <= i < |s| ensures drop(s[i]) {
        if i < |s| - 1 {
          assert s[i] == t[i];
        }
      }
    }
  }

  /** `s.strip()` */
  function Strip(s: string): string {
    TrimEnd(TrimStart(s, IsSpace), IsSpace)
  }

  /** `s.strip()` keeps a contiguous run of `s` that neither begins nor ends
      with whitespace, and drops only whitespace around it. */
  lemma StripSpec(s: string)
    ensures var r := Strip(s);
      (r != [] ==> !IsSpace(r[0]) && !IsSpace(r[|r| - 1]))
      && exists i :: 0 <= i && i + |r| <= |s| && r == s[i..i + |r|]
                     && AllSpace(s[..i]) && AllSpace(s[i + |r|..])
  {
    var t := TrimStart(s, IsSpace);
    var r := TrimEnd(t, IsSpace);
    TrimStartSpec(s, IsSpace);
    TrimEndSpec(t, IsSpace);
    var i := |s| - |t|;
    assert r == s[i..i + |r|];
    assert AllSpace(s[..i]);
    assert AllSpace(s[i + |r|..]) by {
      var tail := s[i + |r|..];
      forall k | 0 <= k < |tail| ensures IsSpace(tail[k]) {
        assert tail[k] == t[|r| + k];
      }
    }
  }

  /** A string is all whitespace exactly when `strip()` leaves nothing. */
  lemma StripEmpty(s: string)
    ensures Strip(s) == [] <==> AllSpace(s)
  {
    var t := TrimStart(s, IsSpace);
    TrimStartSpec(s, IsSpace);
    TrimEndSpec(t, IsSpace);
    if Strip(s) == [] {
      assert t == [];
    }
  }

  /** `strip()` leaves a string that begins with a non-space character and
      ends with one unchanged. */
  lemma StripUnchanged(s: string)
    requires s != [] && !IsSpace(s[0]) && !IsSpace(s[|s| - 1])
    ensures Strip(s) == s
  {
  }

  /** `strip()` brings in no character that `s` lacks. */
  lemma StripAbsent(s: string, c: char)
    requires c !in s
    ensures c !in Strip(s)
  {
    var t := TrimStart(s, IsSpace);
    var r := TrimEnd(t, IsSpace);
    TrimStartSpec(s, IsSpace);
    TrimEndSpec(t, IsSpace);
    forall k | 0 <= k < |r| ensures r[k] != c {
      assert r[k] == s[|s| - |t| + k];
      assert s[|s| - |t| + k] in s;
    }
  }

  /** Stripping twice is stripping once. */
  lemma StripIdempotent(s: string)
    ensures Strip(Strip(s)) == Strip(s)
  {
    StripSpec(s);
    if Strip(s) != [] {
      StripUnchanged(Strip(s));
    }
  }

  /** `strip()` of a string with a middle piece that begins and ends with a
      non-space character: the whitespace goes from the two outer pieces
      only, and the middle piece is kept whole. */
  lemma StripAround(p: string, m: string, z: string)
    requires m != [] && !IsSpace(m[0]) && !IsSpace(m[|m| - 1])
    ensures Strip(p + m + z) == TrimStart(p, IsSpace) + m + TrimEnd(z, IsSpace)
  {
    var p2 := TrimStart(p, IsSpace);
    assert p + m + z == p + (m + z);
    TrimStartBefore(p, m + z);
    assert p2 + (m + z) == (p2 + m) + z;
    TrimEndAfter(p2 + m, z);
  }

  lemma {:induction false} TrimStartBefore(p: string, r: string)
    requires r != [] && !IsSpace(r[0])
    ensures TrimStart(p + r, IsSpace) == TrimStart(p, IsSpace) + r
    decreases |p|
  {
    if p == [] {
      assert p + r == r;
    } else {
      assert (p + r)[0] == p[0];
      assert (p + r)[1..] == p[1..] + r;
      if IsSpace(p[0]) {
        TrimStartBefore(p[1..], r);
      }
    }
  }

  lemma {:induction false} TrimEndAfter(q: string, z: string)
    requires q != [] && !IsSpace(q[|q| - 1])
    ensures TrimEnd(q + z, IsSpace) == q + TrimEnd(z, IsSpace)
    decreases |z|
  {
    if z == [] {
      assert q + z == q;
    } else {
      var z' := z[..|z| - 1];
      assert (q + z)[|q + z| - 1] == z[|z| - 1];
      assert (q + z)[..|q + z| - 1] == q + z';
      if IsSpace(z[|z| - 1]) {
        TrimEndAfter(q, z');
      }
    }
  }

  /** Leading whitespace makes no difference to `strip()`. */
  lemma {:induction false} StripLeadingSpace(sp: string, g: string)
    requires AllSpace(sp)
    ensures Strip(sp + g) == Strip(g)
    decreases |sp|
  {
    if sp != [] {
      assert (sp + g)[0] == sp[0];
      assert (sp + g)[1..] == sp[1..] + g;
      assert TrimStart(sp + g, IsSpace) == TrimStart(sp[1..] + g, IsSpace);
      StripLeadingSpace(sp[1..], g);
    } else {
      assert sp + g == g;
    }
  }

  /** `s.split(sep)`: the pieces between separators, always at least one. */
  function Split(s: string, sep: char): (parts: seq<string>)
    ensures |parts| >= 1
    ensures forall p :: p in parts ==> sep !in p
  {
    if s == [] then [[]]
    else if s[0] == sep then [[]] + Split(s[1..], sep)
    else
      var rest := Split(s[1..], sep);
      [[s[0]] + rest[0]] + rest[1..]
  }

  /** `sep.join(parts)` */
  function Join(parts: seq<string>, sep: char): string
    requires |parts| >= 1
  {
    if |parts| == 1 then parts[0] else parts[0] + [sep] + Join(parts[1..], sep)
  }

  /** Joining the pieces of a split with the same separator gives the
      original string back. */
  lemma {:induction false} JoinSplit(s: string, sep: char)
    ensures Join(Split(s, sep), sep) == s
  {
    if s == [] {
    } else if s[0] == sep {
      JoinSplit(s[1..], sep);
      assert Split(s, sep)[1..] == Split(s[1..], sep);
      assert s == [] + [sep] + s[1..];
    } else {
      var rest := Split(s[1..], sep);
      JoinSplit(s[1..], sep);
      var parts := Split(s, sep);
      assert parts[1..] == rest[1..];
      if |rest| == 1 {
        assert s == [s[0]] + rest[0];
      } else {
        assert Join(rest, sep) == rest[0] + [sep] + Join(rest[1..], sep);
        assert s == [s[0]] + s[1..];
      }
    }
  }

  /** `s.replace(pat, rep)` for a non-empty `pat`: occurrences are replaced
      from left to right and never overlap. */
  function Replace(s: string, pat: string, rep: string): string
    requires pat != []
    decreases |s|
  {
    if s == [] then []
    else if StartsWith(s, pat) then rep + Replace(s[|pat|..], pat, rep)
    else [s[0]] + Replace(s[1..], pat, rep)
  }

  /** `c.lower()` for every character whose lower-case form is one ASCII
      letter: `A`..`Z` and the Kelvin sign U+212A, which lowers to `k`. */
  function LowerChar(c: char): char {
    if 'A' <= c <= 'Z' then (c as int + 32) as char
    else if c == '\U{212A}' then 'k'
    else c
  }

  /** `s.lower() == w` for an all-lower-case ASCII word `w`.  No character
      lowers to several characters that all lie in `w` (only U+0130 lowers to
      two characters, the second a combining dot), so the lengths agree. */
  predicate LowerEquals(s: string, w: string) {
    |s| == |w| && forall i :: 0 <= i < |s| ==> LowerChar(s[i]) == w[i]
  }
}
