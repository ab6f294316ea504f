/** String utilities that FilterBot relies on from Python's `str`:
    `strip()`, `splitlines()`, `split()` with no separator, and the
    substring test `a in b`. Strings are sequences of Unicode scalar values. */
module Text {

  /** The characters Python's `str.isspace()` accepts: the ASCII controls
      TAB..CR and FS..US, the space, NEL, NBSP and the Unicode space
      separators and line/paragraph separators. */
  predicate IsSpace(c: char) {
    c == ' ' || ('\t' <= c <= '\r') || ('\U{1C}' <= c <= '\U{1F}')
    || c == '\U{85}' || c == '\U{A0}' || c == '\U{1680}'
    || ('\U{2000}' <= c <= '\U{200A}') || c == '\U{2028}' || c == '\U{2029}'
    || c == '\U{202F}' || c == '\U{205F}' || c == '\U{3000}'
  }

  /** The characters at which Python's `str.splitlines()` ends a line
      (`\r\n` is also one boundary, handled in SplitLines). */
  predicate IsLineBreak(c: char) {
    c == '\n' || c == '\r' || c == '\U{0B}' || c == '\U{0C}'
    || ('\U{1C}' <= c <= '\U{1E}') || c == '\U{85}' || c == '\U{2028}' || c == '\U{2029}'
  }

  /** A character that survives `str.split()`. */
  predicate IsWordChar(c: char) { !IsSpace(c) }

  /** A character that survives `str.splitlines()`. */
  predicate IsLineChar(c: char) { !IsLineBreak(c) }

  ghost predicate AllSpace(s: string) {
    forall i :: 0 <= i < |s| ==> IsSpace(s[i])
  }

  ghost predicate NoSpace(s: string) {
    forall i :: 0 <= i < |s| ==> !IsSpace(s[i])
  }

  ghost predicate NoLineBreak(s: string) {
    forall i :: 0 <= i < |s| ==> !IsLineBreak(s[i])
  }

  /** Neither the first nor the last character is whitespace. */
  ghost predicate NoOuterSpace(s: string) {
    s == [] || (!IsSpace(s[0]) && !IsSpace(s[|s| - 1]))
  }

  /** What one token produced by `str.split()` looks like. */
  ghost predicate IsWord(w: string) {
    w != [] && NoSpace(w)
  }

  // ---------------------------------------------------------------------
  // strip()

  /** Drops leading whitespace: the result is the longest suffix of `s`
      that does not start with whitespace, and what was dropped is all
      whitespace. */
  function TrimLeft(s: string): (r: string)
    ensures |r| <= |s|
    ensures r == [] || !IsSpace(r[0])
  {
    if s != [] && IsSpace(s[0]) then TrimLeft(s[1..]) else s
  }

  lemma {:induction false} TrimLeftDrops(s: string)
    ensures TrimLeft(s) == s[|s| - |TrimLeft(s)|..]
    ensures AllSpace(s[..|s| - |TrimLeft(s)|])
  {
    if s != [] && IsSpace(s[0]) {
      TrimLeftDrops(s[1..]);
      var k := |s| - |TrimLeft(s)|;
      assert s[..k] == [s[0]] + s[1..][..k - 1];
    }
  }

  /** Drops trailing whitespace: the result is the longest prefix of `s`
      that does not end with whitespace, and what was dropped is all
      whitespace. */
  function TrimRight(s: string): (r: string)
    ensures |r| <= |s|
    ensures r == [] || !IsSpace(r[|r| - 1])
  {
    if s != [] && IsSpace(s[|s| - 1]) then TrimRight(s[..|s| - 1]) else s
  }

  lemma {:induction false} TrimRightDrops(s: string)
    ensures TrimRight(s) == s[..|TrimRight(s)|]
    ensures AllSpace(s[|TrimRight(s)|..])
  {
    if s != [] && IsSpace(s[|s| - 1]) {
      TrimRightDrops(s[..|s| - 1]);
      var k := |TrimRight(s)|;
      assert s[k..] == s[..|s| - 1][k..] + [s[|s| - 1]];
    }
  }

  /** `r` is `s` with whitespace removed at both ends: it sits at
      position `i` of `s` and everything before and after it is
      whitespace. */
  ghost predicate StrippedAt(s: string, r: string, i: int) {
    OccursAt(r, s, i) && AllSpace(s[..i]) && AllSpace(s[i + |r|..])
  }

  /** Python's `str.strip()`: the result is a contiguous piece of `s` with
      no whitespace at either end, everything around it is whitespace, and
      it is empty exactly when `s` is blank. */
  function Strip(s: string): (r: string)
    ensures NoOuterSpace(r)
    ensures r == [] <==> AllSpace(s)
    ensures exists i :: StrippedAt(s, r, i)
  {
    TrimBoth(s);
    TrimRight(TrimLeft(s))
  }

  lemma TrimBoth(s: string)
    ensures NoOuterSpace(TrimRight(TrimLeft(s)))
    ensures TrimRight(TrimLeft(s)) == [] <==> AllSpace(s)
    ensures StrippedAt(s, TrimRight(TrimLeft(s)), |s| - |TrimLeft(s)|)
  {
    TrimLeftDrops(s);
    TrimRightDrops(TrimLeft(s));
    TrimSlices(s, TrimLeft(s), TrimRight(TrimLeft(s)));
  }

  /** The sequence reasoning behind TrimBoth, stated on the two trimmed
      pieces as TrimLeftDrops and TrimRightDrops describe them. */
  lemma TrimSlices(s: string, t: string, r: string)
    requires |t| <= |s| && t == s[|s| - |t|..] && AllSpace(s[..|s| - |t|])
    requires t == [] || !IsSpace(t[0])
    requires |r| <= |t| && r == t[..|r|] && AllSpace(t[|r|..])
    requires r == [] || !IsSpace(r[|r| - 1])
    ensures NoOuterSpace(r)
    ensures r == [] <==> AllSpace(s)
    ensures StrippedAt(s, r, |s| - |t|)
  {
    var i := |s| - |t|;
    assert s[i..i + |r|] == r;
    assert s[i + |r|..] == t[|r|..];
    assert r != [] ==> r[0] == t[0];
    assert t != [] ==> !IsSpace(s[i]);
    if r == [] {
      assert t[|r|..] == t;
      assert t == [];
      assert s[..i] == s;
    }
  }

  /** Every character of `Strip(s)` comes from `s`. */
  lemma StripChars(s: string)
    ensures forall c :: c in Strip(s) ==> c in s
  {
    var r := Strip(s);
    var i :| 0 <= i <= |s| - |r| && s[i..i + |r|] == r;
    forall c | c in r ensures c in s {
      var k :| 0 <= k < |r| && r[k] == c;
      assert s[i + k] == c;
    }
  }

  /** A string with no whitespace at its ends is its own strip. */
  lemma {:induction false} StripIdempotent(s: string)
    requires NoOuterSpace(s)
    ensures Strip(s) == s
  {
    assert TrimLeft(s) == s;
    assert TrimRight(s) == s;
  }

  // ---------------------------------------------------------------------
  // Keeping the characters of a class

  /** The characters of `s` that satisfy `p`, in order. */
  function Filter(p: char -> bool, s: string): (r: string)
    ensures |r| <= |s|
  {
    if s == [] then []
    else (if p(s[0]) then [s[0]] else []) + Filter(p, s[1..])
  }

  lemma {:induction false} FilterConcat(p: char -> bool, a: string, b: string)
    ensures Filter(p, a + b) == Filter(p, a) + Filter(p, b)
  {
    if a == [] {
      assert a + b == b;
    } else {
      var head := if p(a[0]) then [a[0]] else [];
      assert (a + b)[0] == a[0];
      assert (a + b)[1..] == a[1..] + b;
      FilterConcat(p, a[1..], b);
      assert Filter(p, a + b) == head + (Filter(p, a[1..]) + Filter(p, b));
      assert Filter(p, a) == head + Filter(p, a[1..]);
    }
  }

  lemma {:induction false} FilterAll(p: char -> bool, s: string)
    requires forall i :: 0 <= i < |s| ==> p(s[i])
    ensures Filter(p, s) == s
  {
    if s != [] { FilterAll(p, s[1..]); }
  }

  lemma {:induction false} FilterNone(p: char -> bool, s: string)
    requires forall i :: 0 <= i < |s| ==> !p(s[i])
    ensures Filter(p, s) == []
  {
    if s != [] { FilterNone(p, s[1..]); }
  }

  /** The concatenation of a sequence of strings. */
  function Flatten(ss: seq<string>): (r: string) {
    if ss == [] then [] else ss[0] + Flatten(ss[1..])
  }

  // ---------------------------------------------------------------------
  // splitlines()

  /** Length of the first line of `s`: the position of the first line
      boundary, or `|s|` when there is none. */
  function LineLength(s: string): (n: nat)
    ensures n <= |s|
    ensures n < |s| ==> IsLineBreak(s[n])
  {
    if s == [] || IsLineBreak(s[0]) then 0 else 1 + LineLength(s[1..])
  }

  /** The first line holds no line boundary. */
  lemma {:induction false} LineLengthRun(s: string)
    ensures NoLineBreak(s[..LineLength(s)])
  {
    if s != [] && !IsLineBreak(s[0]) {
      var m := LineLength(s[1..]);
      LineLengthRun(s[1..]);
      assert s[..m + 1] == [s[0]] + s[1..][..m];
    }
  }

  /** Length of the line boundary at the start of `s`: two for `\r\n`,
      one otherwise. */
  function BreakLength(s: string): (k: nat)
    requires s != [] && IsLineBreak(s[0])
    ensures 1 <= k <= |s|
  {
    if s[0] == '\r' && |s| > 1 && s[1] == '\n' then 2 else 1
  }

  /** Python's `str.splitlines()`: the lines of `s` without their
      boundaries; a final boundary does not start an extra line. */
  function SplitLines(s: string): (lines: seq<string>)
    decreases |s|
  {
    if s == [] then []
    else
      var n := LineLength(s);
      if n == |s| then [s]
      else [s[..n]] + SplitLines(s[n + BreakLength(s[n..])..])
  }

  /** No line produced by `splitlines()` contains a line boundary. */
  lemma {:induction false} SplitLinesNoBreak(s: string)
    ensures forall i :: 0 <= i < |SplitLines(s)| ==> NoLineBreak(SplitLines(s)[i])
    decreases |s|
  {
    if s != [] {
      var n := LineLength(s);
      LineLengthRun(s);
      if n == |s| {
        assert s[..n] == s;
      } else {
        var rest := s[n + BreakLength(s[n..])..];
        SplitLinesNoBreak(rest);
        assert SplitLines(s) == [s[..n]] + SplitLines(rest);
      }
    }
  }

  /** A line followed by a boundary (or by nothing) is its own first line. */
  lemma {:induction false} LineLengthOfLine(l: string, rest: string)
    requires NoLineBreak(l)
    requires |rest| > 0 ==> IsLineBreak(rest[0])
    ensures LineLength(l + rest) == |l|
  {
    if l == [] {
      assert l + rest == rest;
    } else {
      assert (l + rest)[0] == l[0];
      assert (l + rest)[1..] == l[1..] + rest;
      LineLengthOfLine(l[1..], rest);
    }
  }

  /** Text without a line boundary is a single line, or no line at all
      when it is empty. */
  lemma SplitLinesOfLine(l: string)
    requires NoLineBreak(l)
    ensures l == [] ==> SplitLines(l) == []
    ensures l != [] ==> SplitLines(l) == [l]
  {
    LineLengthOfLine(l, []);
    assert l + [] == l;
  }

  /** A line boundary ends the line before it: `\r\n` is one boundary,
      and any other boundary character is one on its own (a `\r` counts
      alone only when no `\n` follows it). The text after the boundary is
      split on its own. */
  lemma SplitLinesCut(l: string, b: string, rest: string)
    requires NoLineBreak(l)
    requires b == "\r\n"
             || (|b| == 1 && IsLineBreak(b[0]) && !(b[0] == '\r' && |rest| > 0 && rest[0] == '\n'))
    ensures SplitLines(l + b + rest) == [l] + SplitLines(rest)
  {
    var s := l + b + rest;
    LineLengthOfLine(l, b + rest);
    assert s == l + (b + rest);
    assert s[..|l|] == l;
    assert s[|l|..] == b + rest;
    assert BreakLength(b + rest) == |b|;
    assert s[|l| + |b|..] == rest;
  }

  /** Removing the boundary characters keeps the first line whole and
      continues at its end. */
  lemma {:induction false} FilterLine(s: string)
    ensures Filter(IsLineChar, s) == s[..LineLength(s)] + Filter(IsLineChar, s[LineLength(s)..])
  {
    if s != [] && !IsLineBreak(s[0]) {
      var m := LineLength(s[1..]);
      FilterLine(s[1..]);
      assert s[..m + 1] == [s[0]] + s[1..][..m];
      assert s[m + 1..] == s[1..][m..];
      assert Filter(IsLineChar, s) == [s[0]] + Filter(IsLineChar, s[1..]);
    } else {
      assert s[..0] == [] && s[0..] == s;
    }
  }

  /** A line boundary at the start of a text disappears entirely. */
  lemma FilterBreak(t: string)
    requires t != [] && IsLineBreak(t[0])
    ensures Filter(IsLineChar, t) == Filter(IsLineChar, t[BreakLength(t)..])
  {
    assert Filter(IsLineChar, t) == [] + Filter(IsLineChar, t[1..]);
    if BreakLength(t) == 2 {
      var u := t[1..];
      assert IsLineBreak(u[0]);
      assert Filter(IsLineChar, u) == [] + Filter(IsLineChar, u[1..]);
      assert u[1..] == t[2..];
    }
  }

  /** The lines of a text with a line boundary, put back together, are its
      first line followed by the lines after the boundary. */
  lemma FlattenFirstLine(s: string)
    requires LineLength(s) < |s|
    ensures var n := LineLength(s);
            Flatten(SplitLines(s)) == s[..n] + Flatten(SplitLines(s[n + BreakLength(s[n..])..]))
  {
    var n := LineLength(s);
    var rest := s[n + BreakLength(s[n..])..];
    assert SplitLines(s) == [s[..n]] + SplitLines(rest);
    assert ([s[..n]] + SplitLines(rest))[1..] == SplitLines(rest);
  }

  /** Splitting into lines loses exactly the line boundaries: the lines,
      put back together, are `s` with its boundary characters removed. */
  lemma {:induction false} SplitLinesKeepsText(s: string)
    ensures Flatten(SplitLines(s)) == Filter(IsLineChar, s)
    decreases |s|
  {
    if s != [] {
      var n := LineLength(s);
      FilterLine(s);
      if n == |s| {
        assert s[..n] == s && s[n..] == [];
        assert Flatten([s]) == s + Flatten([]);
      } else {
        var k := BreakLength(s[n..]);
        FilterBreak(s[n..]);
        assert s[n..][k..] == s[n + k..];
        FlattenFirstLine(s);
        SplitLinesKeepsText(s[n + k..]);
      }
    }
  }

  // ---------------------------------------------------------------------
  // split()

  /** Length of the leading run of non-whitespace characters. */
  function WordLength(s: string): (n: nat)
    ensures n <= |s|
    ensures s != [] && !IsSpace(s[0]) ==> n > 0
  {
    if s == [] || IsSpace(s[0]) then 0 else 1 + WordLength(s[1..])
  }

  lemma {:induction false} WordLengthRun(s: string)
    ensures forall i :: 0 <= i < WordLength(s) ==> !IsSpace(s[i])
    ensures WordLength(s) < |s| ==> IsSpace(s[WordLength(s)])
  {
    if s != [] && !IsSpace(s[0]) {
      WordLengthRun(s[1..]);
      assert forall i :: 1 <= i < WordLength(s) ==> s[i] == s[1..][i - 1];
    }
  }

  /** Python's `str.split()` with no separator: the maximal runs of
      non-whitespace characters, in order; no token is empty. */
  function SplitWords(s: string): (words: seq<string>)
    decreases |s|
  {
    var t := TrimLeft(s);
    if t == [] then []
    else
      var n := WordLength(t);
      [t[..n]] + SplitWords(t[n..])
  }

  /** Every token of `str.split()` is non-empty and holds no whitespace. */
  lemma {:induction false} SplitWordsAreWords(s: string)
    ensures forall i :: 0 <= i < |SplitWords(s)| ==> IsWord(SplitWords(s)[i])
    decreases |s|
  {
    var t := TrimLeft(s);
    SplitWordsStep(s);
    if t != [] {
      var n := WordLength(t);
      WordLengthRun(t);
      SplitWordsAreWords(t[n..]);
      var ws := SplitWords(t[n..]);
      assert IsWord(t[..n]);
      assert forall i :: 0 <= i < |ws| ==> ([t[..n]] + ws)[i + 1] == ws[i];
    }
  }

  lemma FlattenCons(w: string, ws: seq<string>)
    ensures Flatten([w] + ws) == w + Flatten(ws)
  {
    assert ([w] + ws)[1..] == ws;
  }

  /** One step of SplitWords, spelled out. */
  lemma SplitWordsStep(s: string)
    ensures TrimLeft(s) == [] ==> SplitWords(s) == []
    ensures TrimLeft(s) != [] ==>
      SplitWords(s) == [TrimLeft(s)[..WordLength(TrimLeft(s))]]
                       + SplitWords(TrimLeft(s)[WordLength(TrimLeft(s))..])
  {
  }

  /** Filtering a string that is a run of rejected characters followed by
      a run of accepted ones and a tail. */
  lemma FilterPieces(p: char -> bool, lead: string, w: string, rest: string)
    requires forall i :: 0 <= i < |lead| ==> !p(lead[i])
    requires forall i :: 0 <= i < |w| ==> p(w[i])
    ensures Filter(p, lead + (w + rest)) == w + Filter(p, rest)
  {
    FilterConcat(p, lead, w + rest);
    FilterConcat(p, w, rest);
    FilterNone(p, lead);
    FilterAll(p, w);
  }

  /** Splitting into tokens loses exactly the whitespace: the tokens, put
      back together, are `s` with its whitespace removed. */
  lemma {:induction false} SplitWordsKeepsText(s: string)
    ensures Flatten(SplitWords(s)) == Filter(IsWordChar, s)
    decreases |s|
  {
    var t := TrimLeft(s);
    var lead := s[..|s| - |t|];
    assert s == lead + t by { TrimLeftDrops(s); }
    assert forall i :: 0 <= i < |lead| ==> !IsWordChar(lead[i]) by { TrimLeftDrops(s); }
    if t == [] {
      assert SplitWords(s) == [] by { SplitWordsStep(s); }
      assert s == lead + ([] + []);
      FilterPieces(IsWordChar, lead, [], []);
    } else {
      var n := WordLength(t);
      var w, rest := t[..n], t[n..];
      assert t == w + rest;
      assert forall i :: 0 <= i < |w| ==> IsWordChar(w[i]) by { WordLengthRun(t); }
      assert Filter(IsWordChar, s) == w + Filter(IsWordChar, rest) by {
        FilterPieces(IsWordChar, lead, w, rest);
      }
      assert Flatten(SplitWords(s)) == w + Flatten(SplitWords(rest)) by {
        SplitWordsStep(s);
        FlattenCons(w, SplitWords(rest));
      }
      SplitWordsKeepsText(rest);
    }
  }

  /** Tokens joined with single spaces, the inverse of SplitWords. */
  function JoinWords(ws: seq<string>): (r: string) {
    if ws == [] then []
    else if |ws| == 1 then ws[0]
    else ws[0] + " " + JoinWords(ws[1..])
  }

  /** A token is its own first run of non-whitespace characters. */
  lemma {:induction false} WordLengthOfWord(w: string, rest: string)
    requires NoSpace(w)
    requires |rest| > 0 ==> IsSpace(rest[0])
    ensures WordLength(w + rest) == |w|
  {
    if w == [] {
      assert w + rest == rest;
    } else {
      assert (w + rest)[0] == w[0];
      assert (w + rest)[1..] == w[1..] + rest;
      WordLengthOfWord(w[1..], rest);
    }
  }

  /** A token followed by whitespace (or by nothing) is split off first. */
  lemma SplitWordsOfWordThen(w: string, rest: string)
    requires IsWord(w)
    requires |rest| > 0 ==> IsSpace(rest[0])
    ensures SplitWords(w + rest) == [w] + SplitWords(rest)
  {
    var x := w + rest;
    assert x[0] == w[0];
    assert TrimLeft(x) == x;
    WordLengthOfWord(w, rest);
    assert x[..|w|] == w;
    assert x[|w|..] == rest;
    SplitWordsStep(x);
  }

  /** Leading whitespace does not change the tokens. */
  lemma SplitWordsSkipSpace(x: string)
    requires |x| > 0 && IsSpace(x[0])
    ensures SplitWords(x) == SplitWords(x[1..])
  {
    assert TrimLeft(x) == TrimLeft(x[1..]);
    SplitWordsStep(x);
    SplitWordsStep(x[1..]);
  }

  /** `str.split()` undoes a join with spaces: for any sequence of
      non-empty tokens without whitespace, splitting the joined text gives
      the tokens back. */
  lemma {:induction false} SplitJoin(ws: seq<string>)
    requires forall i :: 0 <= i < |ws| ==> IsWord(ws[i])
    ensures SplitWords(JoinWords(ws)) == ws
  {
    if ws == [] {
      assert SplitWords([]) == [];
    } else if |ws| == 1 {
      assert JoinWords(ws) == ws[0] + [];
      SplitWordsOfWordThen(ws[0], []);
      assert SplitWords([]) == [];
    } else {
      var w, jr := ws[0], JoinWords(ws[1..]);
      assert JoinWords(ws) == w + (" " + jr);
      SplitWordsOfWordThen(w, " " + jr);
      assert (" " + jr)[1..] == jr;
      SplitWordsSkipSpace(" " + jr);
      SplitJoin(ws[1..]);
      assert ws == [w] + ws[1..];
    }
  }

  /** Splitting is stable: re-joining the tokens with single spaces and
      splitting again gives the same tokens. */
  lemma SplitJoinSplit(s: string)
    ensures SplitWords(JoinWords(SplitWords(s))) == SplitWords(s)
  {
    SplitWordsAreWords(s);
    SplitJoin(SplitWords(s));
  }

  // ---------------------------------------------------------------------
  // Substring test `e in t`

  /** `e` occurs in `t` starting at position `i`. */
  ghost predicate OccursAt(e: string, t: string, i: int) {
    0 <= i <= |t| - |e| && t[i..i + |e|] == e
  }

  ghost predicate Occurs(e: string, t: string) {
    exists i :: OccursAt(e, t, i)
  }

  /** Python's `e in t` for strings: `e` is a prefix of `t` or of one of
      its suffixes. The empty string is in every string. */
  predicate IsSubstring(e: string, t: string)
    decreases |t|
  {
    e <= t || (t != [] && IsSubstring(e, t[1..]))
  }

  /** The recursive test agrees with the definition by position. */
  lemma {:induction false} SubstringIff(e: string, t: string)
    ensures IsSubstring(e, t) <==> Occurs(e, t)
    decreases |t|
  {
    if IsSubstring(e, t) {
      if e <= t {
        assert OccursAt(e, t, 0);
      } else {
        SubstringIff(e, t[1..]);
        var i :| OccursAt(e, t[1..], i);
        assert t[i + 1..i + 1 + |e|] == t[1..][i..i + |e|];
        assert OccursAt(e, t, i + 1);
      }
    }
    if Occurs(e, t) {
      var i :| OccursAt(e, t, i);
      if i == 0 {
        assert e <= t;
      } else {
        assert t[1..][i - 1..i - 1 + |e|] == t[i..i + |e|];
        assert OccursAt(e, t[1..], i - 1);
        SubstringIff(e, t[1..]);
      }
    }
  }
}
