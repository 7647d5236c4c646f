/** String operations the outline extractor relies on: ASCII lower-casing,
    substring search, stripping a set of characters from either end, and
    collapsing whitespace runs the way `re.sub(r"\s+", " ", s)` does. */
module Textual {

  /** The whitespace characters recognised by stripping and by `\s`: the ASCII
      whitespace characters plus the four information separators, which
      Python's `str.isspace` also accepts. */
  const Whitespace: set<char> :=
    {' ', '\t', '\n', '\r', '\U{B}', '\U{C}', '\U{1C}', '\U{1D}', '\U{1E}', '\U{1F}'}

  predicate IsSpace(c: char) {
    c in Whitespace
  }

  /** ASCII lower-casing of one character. */
  function LowerChar(c: char): (d: char)
    ensures 'A' <= c <= 'Z' ==> 'a' <= d <= 'z' && d == (c as int + 32) as char
    ensures !('A' <= c <= 'Z') ==> d == c
  {
    if 'A' <= c <= 'Z' then (c as int + 32) as char else c
  }

  /** `s.lower()`, restricted to ASCII letters. */
  function Lower(s: string): (r: string)
    ensures |r| == |s|
    ensures forall i :: 0 <= i < |s| ==> r[i] == LowerChar(s[i])
  {
    if s == [] then [] else [LowerChar(s[0])] + Lower(s[1..])
  }

  /** Lower-casing twice is lower-casing once. */
  lemma LowerIdempotent(s: string)
    ensures Lower(Lower(s)) == Lower(s)
  {
  }

  /** Text without capital letters is its own lower-case form. */
  lemma LowerOfLowercase(s: string)
    requires forall i :: 0 <= i < |s| ==> !('A' <= s[i] <= 'Z')
    ensures Lower(s) == s
  {
  }

  /** Python's `w in t` for strings: `w` occurs as a contiguous piece of `t`. */
  function Contains(t: string, w: string): (r: bool)
    ensures r ==> |w| <= |t|
    ensures w <= t ==> r
  {
    assert w <= t ==> w <= t[0..];
    exists i | 0 <= i <= |t| - |w| :: w <= t[i..]
  }

  /** A word occurs in any text that has it somewhere in the middle. */
  lemma ContainsInfix(a: string, w: string, b: string)
    ensures Contains(a + w + b, w)
  {
    var t := a + w + b;
    assert t[|a|..][..|w|] == w;
  }

  /** A word can only occur in a text holding the word's first character. */
  lemma ContainsFirstChar(t: string, w: string)
    requires w != [] && Contains(t, w)
    ensures w[0] in t
  {
    var i :| 0 <= i <= |t| - |w| && w <= t[i..];
    assert t[i] == w[0];
  }

  /** A word whose first character is missing from `t` does not occur in it. */
  lemma MissingFirstChar(t: string, w: string)
    requires w != [] && w[0] !in t
    ensures !Contains(t, w)
  {
    if Contains(t, w) {
      ContainsFirstChar(t, w);
    }
  }

  /** Lower-casing keeps every character that is not a capital letter. */
  lemma LowerKeepsNonCapital(s: string, c: char)
    requires c in s && !('A' <= c <= 'Z')
    ensures c in Lower(s)
  {
    var i :| 0 <= i < |s| && s[i] == c;
    assert Lower(s)[i] == c;
  }

  /** `s.lstrip(cs)`: drops the longest prefix made of characters of `cs`. */
  function TrimStart(s: string, cs: set<char>): (r: string)
    ensures |r| <= |s| && r == s[|s| - |r|..]
    ensures forall i :: 0 <= i < |s| - |r| ==> s[i] in cs
    ensures r == [] || r[0] !in cs
    decreases |s|
  {
    if s != [] && s[0] in cs then TrimStart(s[1..], cs) else s
  }

  /** `s.rstrip(cs)`: drops the longest suffix made of characters of `cs`. */
  function TrimEnd(s: string, cs: set<char>): (r: string)
    ensures |r| <= |s| && r == s[..|r|]
    ensures forall i :: |r| <= i < |s| ==> s[i] in cs
    ensures r == [] || r[|r| - 1] !in cs
    decreases |s|
  {
    if s != [] && s[|s| - 1] in cs then TrimEnd(s[..|s| - 1], cs) else s
  }

  /** `s.strip()`: no whitespace left at either end. */
  function Strip(s: string): (r: string)
    ensures r == [] || (!IsSpace(r[0]) && !IsSpace(r[|r| - 1]))
    ensures |r| <= |s|
  {
    TrimEnd(TrimStart(s, Whitespace), Whitespace)
  }

  /** Text with no whitespace at either end is its own stripped form. */
  lemma StripTrimmed(s: string)
    requires s == [] || (!IsSpace(s[0]) && !IsSpace(s[|s| - 1]))
    ensures Strip(s) == s
  {
    assert TrimStart(s, Whitespace) == s;
  }

  /** The characters of `s` that are not whitespace, in order. */
  function NonSpace(s: string): string {
    if s == [] then []
    else (if IsSpace(s[0]) then [] else [s[0]]) + NonSpace(s[1..])
  }

  /** The only whitespace is the plain space, and no two whitespace characters
      are adjacent. */
  predicate SingleSpaced(s: string) {
    forall i :: 0 <= i < |s| && IsSpace(s[i]) ==>
      s[i] == ' ' && (i + 1 < |s| ==> !IsSpace(s[i + 1]))
  }

  /** Cutting a single-spaced string short keeps it single-spaced. */
  lemma SingleSpacedPrefix(s: string, n: nat)
    requires SingleSpaced(s) && n <= |s|
    ensures SingleSpaced(s[..n])
  {
    assert forall i :: 0 <= i < n ==> s[..n][i] == s[i];
  }

  /** Two words of non-control characters joined by one space are single-spaced. */
  lemma WordsJoinedSingleSpaced(a: string, b: string)
    requires forall i :: 0 <= i < |a| ==> 'A' <= a[i]
    requires forall i :: 0 <= i < |b| ==> 'A' <= b[i]
    ensures SingleSpaced(a + " " + b)
  {
    var s := a + " " + b;
    forall i | 0 <= i < |s| ensures s[i] == ' ' || 'A' <= s[i]
    {
      if i < |a| {
        assert s[i] == a[i];
      } else if i > |a| {
        assert s[i] == b[i - |a| - 1];
      }
    }
  }

  /** `re.sub(r"\s+", " ", s)`: every maximal run of whitespace becomes one space. */
  function CollapseWhitespace(s: string): (r: string)
    ensures SingleSpaced(r)
    ensures r == [] <==> s == []
    ensures s != [] ==> (IsSpace(r[0]) <==> IsSpace(s[0]))
    decreases |s|
  {
    if s == [] then []
    else if IsSpace(s[0]) then [' '] + CollapseWhitespace(TrimStart(s, Whitespace))
    else [s[0]] + CollapseWhitespace(s[1..])
  }

  /** The collapsed text ends in whitespace exactly when the input does. */
  lemma {:induction false} CollapseKeepsLast(s: string)
    requires s != []
    ensures var r := CollapseWhitespace(s); IsSpace(r[|r| - 1]) <==> IsSpace(s[|s| - 1])
    decreases |s|
  {
    if IsSpace(s[0]) {
      var t := TrimStart(s, Whitespace);
      if t != [] {
        assert t[|t| - 1] == s[|s| - 1];
        CollapseKeepsLast(t);
      }
    } else if |s| > 1 {
      CollapseKeepsLast(s[1..]);
    }
  }

  /** `s.split()`: the maximal runs of non-whitespace characters, in order.
      A visible character starts a new word after whitespace or at the end,
      and otherwise joins the word that follows it. */
  function Words(s: string): (ws: seq<string>)
    ensures s != [] && !IsSpace(s[0]) ==> ws != []
    decreases |s|
  {
    if s == [] then []
    else if IsSpace(s[0]) then Words(s[1..])
    else if |s| == 1 || IsSpace(s[1]) then [[s[0]]] + Words(s[1..])
    else
      var ws := Words(s[1..]);
      [[s[0]] + ws[0]] + ws[1..]
  }

  /** Leading whitespace does not change the words. */
  lemma {:induction false} WordsTrimStart(s: string)
    ensures Words(TrimStart(s, Whitespace)) == Words(s)
    decreases |s|
  {
    if s != [] && IsSpace(s[0]) {
      WordsTrimStart(s[1..]);
    }
  }

  /** Collapsing whitespace keeps the words: together with `SingleSpaced` and
      the first and last characters this fixes the collapsed text. */
  lemma {:induction false} CollapseKeepsWords(s: string)
    ensures Words(CollapseWhitespace(s)) == Words(s)
    decreases |s|
  {
    if s == [] {
    } else if IsSpace(s[0]) {
      var t := TrimStart(s, Whitespace);
      CollapseKeepsWords(t);
      assert ([' '] + CollapseWhitespace(t))[1..] == CollapseWhitespace(t);
      WordsTrimStart(s);
    } else {
      var c := CollapseWhitespace(s[1..]);
      CollapseKeepsWords(s[1..]);
      assert ([s[0]] + c)[1..] == c;
    }
  }

  lemma {:induction false} NonSpaceAppend(a: string, b: string)
    ensures NonSpace(a + b) == NonSpace(a) + NonSpace(b)
    decreases |a|
  {
    if a == [] {
      assert a + b == b;
    } else {
      assert (a + b)[0] == a[0] && (a + b)[1..] == a[1..] + b;
      NonSpaceAppend(a[1..], b);
    }
  }

  lemma {:induction false} NonSpaceOfBlank(s: string)
    requires forall i :: 0 <= i < |s| ==> IsSpace(s[i])
    ensures NonSpace(s) == []
    decreases |s|
  {
    if s != [] {
      NonSpaceOfBlank(s[1..]);
    }
  }

  /** Stripping whitespace keeps every visible character. */
  lemma StripKeepsText(s: string)
    ensures NonSpace(Strip(s)) == NonSpace(s)
  {
    TrimStartKeepsText(s);
    TrimEndKeepsText(TrimStart(s, Whitespace));
  }

  lemma TrimStartKeepsText(s: string)
    ensures NonSpace(TrimStart(s, Whitespace)) == NonSpace(s)
  {
    var t := TrimStart(s, Whitespace);
    var head := s[..|s| - |t|];
    assert s == head + t;
    NonSpaceOfBlank(head);
    NonSpaceAppend(head, t);
  }

  lemma TrimEndKeepsText(t: string)
    ensures NonSpace(TrimEnd(t, Whitespace)) == NonSpace(t)
  {
    var r := TrimEnd(t, Whitespace);
    var tail := t[|r|..];
    assert t == r + tail;
    NonSpaceOfBlank(tail);
    NonSpaceAppend(r, tail);
  }

  /** The visible characters of a text made of characters of `cs` are in `cs`. */
  lemma {:induction false} NonSpaceWithin(s: string, cs: set<char>)
    requires forall i :: 0 <= i < |s| ==> s[i] in cs
    ensures forall i :: 0 <= i < |NonSpace(s)| ==> NonSpace(s)[i] in cs && !IsSpace(NonSpace(s)[i])
    decreases |s|
  {
    if s != [] {
      NonSpaceWithin(s[1..], cs);
    }
  }

  /** Trimming the end keeps a prefix of the visible characters, and every
      visible character it drops is in the trim set. */
  lemma TrimEndKeepsPrefix(c: string, cs: set<char>)
    ensures var n, v := NonSpace(TrimEnd(c, cs)), NonSpace(c);
      n <= v && forall i :: |n| <= i < |v| ==> v[i] in cs && !IsSpace(v[i])
  {
    var t := TrimEnd(c, cs);
    var tail := c[|t|..];
    assert c == t + tail;
    NonSpaceAppend(t, tail);
    NonSpaceWithin(tail, cs);
    var n := NonSpace(t);
    forall i | |n| <= i < |NonSpace(c)|
      ensures NonSpace(c)[i] == NonSpace(tail)[i - |n|]
    {
    }
  }

  /** Collapsing whitespace keeps every visible character, in order. */
  lemma {:induction false} CollapseKeepsText(s: string)
    ensures NonSpace(CollapseWhitespace(s)) == NonSpace(s)
    decreases |s|
  {
    if s == [] {
    } else if IsSpace(s[0]) {
      var t := TrimStart(s, Whitespace);
      CollapseKeepsText(t);
      NonSpaceAppend([' '], CollapseWhitespace(t));
      TrimStartKeepsText(s);
    } else {
      CollapseKeepsText(s[1..]);
      NonSpaceAppend([s[0]], CollapseWhitespace(s[1..]));
    }
  }

  /** A single-spaced string has nothing to collapse. */
  lemma {:induction false} CollapseSingleSpaced(s: string)
    requires SingleSpaced(s)
    ensures CollapseWhitespace(s) == s
    decreases |s|
  {
    if s == [] {
    } else if IsSpace(s[0]) {
      assert TrimStart(s, Whitespace) == TrimStart(s[1..], Whitespace);
      assert s[1..] == [] || !IsSpace(s[1]);
      assert TrimStart(s[1..], Whitespace) == s[1..];
      CollapseSingleSpaced(s[1..]);
    } else {
      CollapseSingleSpaced(s[1..]);
    }
  }
}
