/** The denylist as FilterBot fetches and consults it: the answer of the
    HTTP request, the parsing of its body into entries, and the substring
    test of a token against the entries. */
module Denylist {
  import opened Text

  /** What the request for the denylist gives back: a response with its
      status code and its decoded text, or an exception raised while
      connecting, requesting or reading the body. */
  datatype FetchResult = Response(status: int, body: string) | TransportError

  /** The shape of every entry the parser produces: non-empty, stripped,
      and on one line. */
  ghost predicate IsEntry(e: string) {
    e != [] && NoOuterSpace(e) && NoLineBreak(e)
  }

  /** The list comprehension over the lines of the body: each line is
      stripped and only the non-blank results are kept, in order. */
  function ParseLines(lines: seq<string>): (entries: seq<string>)
    ensures |entries| <= |lines|
  {
    if lines == [] then []
    else
      var e := Strip(lines[0]);
      (if e != [] then [e] else []) + ParseLines(lines[1..])
  }

  /** Every entry is the stripped form of some line, and it is never
      empty and never starts or ends with whitespace. */
  lemma {:induction false} ParseLinesSound(lines: seq<string>)
    ensures forall e | e in ParseLines(lines) :: e != [] && NoOuterSpace(e)
    ensures forall e | e in ParseLines(lines) :: exists l | l in lines :: Strip(l) == e
  {
    if lines != [] {
      ParseLinesSound(lines[1..]);
      var e := Strip(lines[0]);
      assert ParseLines(lines) == (if e != [] then [e] else []) + ParseLines(lines[1..]);
      forall x | x in ParseLines(lines[1..]) ensures exists l | l in lines :: Strip(l) == x {
        var l :| l in lines[1..] && Strip(l) == x;
        assert l in lines;
      }
    }
  }

  /** Every line that is not blank contributes its stripped form. */
  lemma {:induction false} ParseLinesComplete(lines: seq<string>)
    ensures forall l | l in lines && !AllSpace(l) :: Strip(l) in ParseLines(lines)
  {
    if lines != [] {
      ParseLinesComplete(lines[1..]);
      var e := Strip(lines[0]);
      assert ParseLines(lines) == (if e != [] then [e] else []) + ParseLines(lines[1..]);
      forall l | l in lines && !AllSpace(l) ensures Strip(l) in ParseLines(lines) {
        if l != lines[0] {
          assert l in lines[1..];
        }
      }
    }
  }

  /** The entries found in the body of a successful response. */
  function ParseDenylist(text: string): (entries: seq<string>) {
    ParseLines(SplitLines(text))
  }

  /** All that the parser produces is a well-formed entry: in particular
      the empty string is never an entry. */
  lemma ParseDenylistEntries(text: string)
    ensures forall e | e in ParseDenylist(text) :: IsEntry(e)
  {
    var lines := SplitLines(text);
    ParseLinesSound(lines);
    SplitLinesNoBreak(text);
    forall e | e in ParseDenylist(text) ensures IsEntry(e) {
      var l :| l in lines && Strip(l) == e;
      var k :| 0 <= k < |lines| && lines[k] == l;
      assert NoLineBreak(l);
      StripChars(l);
      forall i | 0 <= i < |e| ensures !IsLineBreak(e[i]) {
        assert e[i] in l;
        var j :| 0 <= j < |l| && l[j] == e[i];
      }
    }
  }

  /** The entries are exactly the stripped non-blank lines of the body. */
  lemma ParseDenylistExact(text: string)
    ensures forall e :: e in ParseDenylist(text) <==>
      exists l | l in SplitLines(text) :: !AllSpace(l) && Strip(l) == e
  {
    var lines := SplitLines(text);
    ParseLinesSound(lines);
    ParseLinesComplete(lines);
  }

  /** Each line of the body is parsed on its own: a line ended by a
      boundary contributes its stripped form, unless it is blank, and the
      text after the boundary is parsed separately. So entries on two
      lines are never merged. */
  lemma ParseDenylistCut(l: string, b: string, rest: string)
    requires NoLineBreak(l)
    requires b == "\r\n"
             || (|b| == 1 && IsLineBreak(b[0]) && !(b[0] == '\r' && |rest| > 0 && rest[0] == '\n'))
    ensures !AllSpace(l) ==> ParseDenylist(l + b + rest) == [Strip(l)] + ParseDenylist(rest)
    ensures AllSpace(l) ==> ParseDenylist(l + b + rest) == ParseDenylist(rest)
  {
    SplitLinesCut(l, b, rest);
    var lines := [l] + SplitLines(rest);
    assert lines[0] == l && lines[1..] == SplitLines(rest);
  }

  /** `_fetch_disallow_list`: the parsed entries when the response has
      status 200, and the empty list for any other status and for any
      exception. */
  function FetchDisallowList(r: FetchResult): (entries: seq<string>) {
    if r.Response? && r.status == 200 then ParseDenylist(r.body) else []
  }

  /** A fetch gives no entries at all unless the response is a 200, and
      whatever it gives is a well-formed entry. Note that a failure is
      indistinguishable from an empty list. */
  lemma FetchDisallowListSpec(r: FetchResult)
    ensures !(r.Response? && r.status == 200) ==> FetchDisallowList(r) == []
    ensures r.Response? && r.status == 200 ==>
      forall e :: e in FetchDisallowList(r) <==>
        exists l | l in SplitLines(r.body) :: !AllSpace(l) && Strip(l) == e
    ensures forall e | e in FetchDisallowList(r) :: IsEntry(e)
  {
    if r.Response? && r.status == 200 {
      ParseDenylistExact(r.body);
      ParseDenylistEntries(r.body);
    }
  }

  /** `_is_disallow_url`: some entry of the denylist is a substring of the
      token. */
  predicate IsDisallowUrl(denylist: set<string>, url: string) {
    exists e | e in denylist :: IsSubstring(e, url)
  }

  /** A token is disallowed exactly when some entry occurs in it at some
      position; with an empty denylist nothing is ever disallowed. */
  lemma IsDisallowUrlIff(denylist: set<string>, url: string)
    ensures IsDisallowUrl(denylist, url) <==> exists e :: e in denylist && Occurs(e, url)
  {
    forall e | e in denylist {
      SubstringIff(e, url);
    }
  }

  /** Only the entries without whitespace can ever match a token of
      `str.split()`: an entry such as "bad site" is kept by the parser but
      never fires. */
  lemma IsDisallowUrlWord(denylist: set<string>, w: string)
    requires IsWord(w)
    ensures IsDisallowUrl(denylist, w) <==>
      exists e :: e in denylist && NoSpace(e) && Occurs(e, w)
  {
    IsDisallowUrlIff(denylist, w);
    forall e | e in denylist && Occurs(e, w) ensures NoSpace(e) {
      forall k | 0 <= k < |e| ensures !IsSpace(e[k]) {
        var i :| OccursAt(e, w, i);
        assert w[i..i + |e|][k] == w[i + k];
      }
    }
  }
}
