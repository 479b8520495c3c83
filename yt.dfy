/**
 * yt.py: the plain text of a mail message, the URLs in its unquoted
 * lines, and the YouTube video id in each URL.
 */
module Yt {
  import opened Wrappers
  import opened PyStr

  // ---------------------------------------------------------------------
  // URL_RE = 'http[s]?://(?:[a-zA-Z]|[0-9]|[$-_@.&+]|[!*\(\),]|(?:%[0-9a-fA-F][0-9a-fA-F]))+'

  /**
   * One character of URL_RE's repeated group: ASCII letters and digits,
   * `!*(),`, and the range `$`..`_` (0x24..0x5F), which already holds
   * `@.&+` and `%`. A `%XX` escape is therefore three single characters
   * of the class, and that alternative never lets a match go further.
   */
  predicate IsUrlChar(c: char)
  {
    || ('a' <= c <= 'z') || ('A' <= c <= 'Z') || ('0' <= c <= '9')
    || ('$' <= c <= '_')
    || c == '!' || c == '*' || c == '(' || c == ')' || c == ','
  }

  /** Where `http[s]?://` ends when it matches at `i`; "https://" is tried first. */
  function SchemeEnd(line: string, i: nat): (r: Option<nat>)
    requires i <= |line|
  {
    if StartsWith(line[i..], "https://") then Some(i + 8)
    else if StartsWith(line[i..], "http://") then Some(i + 7)
    else None
  }

  /** A string URL_RE matches in full: a scheme and at least one class character. */
  predicate UrlShaped(u: string)
  {
    || (StartsWith(u, "http://") && |u| > 7 && forall k | 7 <= k < |u| :: IsUrlChar(u[k]))
    || (StartsWith(u, "https://") && |u| > 8 && forall k | 8 <= k < |u| :: IsUrlChar(u[k]))
  }

  /** `u` stands at `p` in `line`, is URL-shaped, and the next character cannot extend it. */
  predicate MaximalUrlAt(line: string, p: int, u: string)
  {
    && 0 <= p && p + |u| <= |line| && line[p..p + |u|] == u
    && UrlShaped(u)
    && (p + |u| == |line| || !IsUrlChar(line[p + |u|]))
  }

  /** Where a URL_RE match that starts at `i` ends, if one does: the `+` is greedy. */
  function MatchEnd(line: string, i: nat): (r: Option<nat>)
    requires i <= |line|
    ensures r.Some? ==> i < r.value <= |line|
    ensures forall u {:trigger MaximalUrlAt(line, i, u)} ::
              MaximalUrlAt(line, i, u) <==> r.Some? && u == line[i..r.value]
  {
    MaximalUrlAtIff(line, i);
    match SchemeEnd(line, i)
    case None => None
    case Some(b) =>
      if b < |line| && IsUrlChar(line[b]) then Some(SpanEnd(line, b, IsUrlChar)) else None
  }

  /** The maximal URLs at `i` are exactly the greedy run after the scheme, when there is one. */
  lemma MaximalUrlAtIff(line: string, i: nat)
    requires i <= |line|
    ensures forall u {:trigger MaximalUrlAt(line, i, u)} ::
              MaximalUrlAt(line, i, u)
              <==> && SchemeEnd(line, i).Some?
                   && var b := SchemeEnd(line, i).value;
                      && b < |line| && IsUrlChar(line[b])
                      && u == line[i..SpanEnd(line, b, IsUrlChar)]
  {
    forall u | MaximalUrlAt(line, i, u)
      ensures && SchemeEnd(line, i).Some?
              && var b := SchemeEnd(line, i).value;
                 && b < |line| && IsUrlChar(line[b])
                 && u == line[i..SpanEnd(line, b, IsUrlChar)]
    {
      MatchAtStart(line, i, u);
    }
    if SchemeEnd(line, i).Some? {
      var b := SchemeEnd(line, i).value;
      if b < |line| && IsUrlChar(line[b]) {
        MatchEndIsUrl(line, i, b, SpanEnd(line, b, IsUrlChar));
      }
    }
  }

  /** A maximal URL at `i` begins with the scheme `SchemeEnd` finds and ends where the greedy run does. */
  lemma MatchAtStart(line: string, i: nat, u: string)
    requires i <= |line| && MaximalUrlAt(line, i, u)
    ensures SchemeEnd(line, i).Some?
    ensures var b := SchemeEnd(line, i).value;
            b < |line| && IsUrlChar(line[b]) && i + |u| == SpanEnd(line, b, IsUrlChar)
  {
    SchemeOfUrl(line, i, u);
    var b := SchemeEnd(line, i).value;
    forall k | b <= k < i + |u| ensures IsUrlChar(line[k]) {
      assert line[k] == u[k - i];
    }
    SpanEndIs(line, b, i + |u|, IsUrlChar);
  }

  /** A URL-shaped string standing at `i` starts with the scheme `SchemeEnd` finds there. */
  lemma SchemeOfUrl(line: string, i: nat, u: string)
    requires i + |u| <= |line| && line[i..i + |u|] == u && UrlShaped(u)
    ensures SchemeEnd(line, i).Some?
    ensures var b := SchemeEnd(line, i).value;
            i < b < i + |u| && forall k | b - i <= k < |u| :: IsUrlChar(u[k])
  {
    var t := line[i..];
    assert t[..|u|] == u;
    if StartsWith(u, "https://") {
      PrefixOfPrefix(t, u, 8);
      assert u[4] == u[..8][4] == 's';
      assert !StartsWith(u, "http://") by {
        assert |u| >= 7 ==> u[..7][4] == 's';
      }
    } else {
      PrefixOfPrefix(t, u, 7);
      assert t[4] == u[..7][4] == ':';
      assert !StartsWith(t, "https://") by {
        assert |t| >= 8 ==> t[..8][4] == ':';
      }
    }
  }

  /** What `t` and its prefix `u` share up to `n`. */
  lemma PrefixOfPrefix(t: string, u: string, n: nat)
    requires |u| <= |t| && t[..|u|] == u && n <= |u|
    ensures t[..n] == u[..n]
    ensures forall k | 0 <= k < n :: t[k] == u[k]
  {
    assert forall k | 0 <= k < n :: t[k] == t[..|u|][k];
  }

  /** The greedy run after the scheme is a maximal URL. */
  lemma MatchEndIsUrl(line: string, i: nat, b: nat, e: nat)
    requires i <= |line| && SchemeEnd(line, i) == Some(b)
    requires b < |line| && IsUrlChar(line[b]) && e == SpanEnd(line, b, IsUrlChar)
    ensures MaximalUrlAt(line, i, line[i..e])
  {
    var m := line[i..e];
    var n := b - i;
    if n == 8 {
      assert StartsWith(m, "https://") by { assert m[..8] == line[i..][..8]; }
    } else {
      assert StartsWith(m, "http://") by { assert m[..7] == line[i..][..7]; }
    }
    forall k | n <= k < |m| ensures IsUrlChar(m[k]) {
      assert m[k] == line[i + k];
    }
    assert UrlShaped(m);
  }

  /** `u` is a maximal URL of `line` that starts at `i` or later. */
  ghost predicate MaximalUrlFrom(line: string, i: int, u: string)
  {
    exists p :: i <= p && MaximalUrlAt(line, p, u)
  }

  /** `URL_RE.findall(line[i:])`: the non-overlapping matches, left to right. */
  function FindAllFrom(line: string, i: nat): (urls: seq<string>)
    requires i <= |line|
    ensures forall k | 0 <= k < |urls| :: MaximalUrlFrom(line, i, urls[k])
    decreases |line| - i
  {
    if i == |line| then []
    else match MatchEnd(line, i)
      case Some(e) =>
        var rest := FindAllFrom(line, e);
        var urls := [line[i..e]] + rest;
        assert MaximalUrlAt(line, i, urls[0]);
        assert forall k | 1 <= k < |urls| :: urls[k] == rest[k - 1];
        urls
      case None =>
        var rest := FindAllFrom(line, i + 1);
        rest
  }

  /** `URL_RE.findall(line)`. */
  function FindAll(line: string): (urls: seq<string>)
    ensures forall k | 0 <= k < |urls| :: MaximalUrlFrom(line, 0, urls[k])
  {
    FindAllFrom(line, 0)
  }

  /** `findall` reports the leftmost match first and resumes right after it. */
  lemma {:induction false} FindAllLeftmost(line: string, i: nat, p: nat)
    requires i <= p < |line| && MatchEnd(line, p).Some?
    requires forall q | i <= q < p :: MatchEnd(line, q).None?
    ensures FindAllFrom(line, i)
            == [line[p..MatchEnd(line, p).value]] + FindAllFrom(line, MatchEnd(line, p).value)
    decreases p - i
  {
    if i < p {
      assert MatchEnd(line, i).None?;
      assert FindAllFrom(line, i) == FindAllFrom(line, i + 1);
      FindAllLeftmost(line, i + 1, p);
    } else {
      var e := MatchEnd(line, p).value;
      assert FindAllFrom(line, i) == [line[p..e]] + FindAllFrom(line, e);
    }
  }

  /** Without a match at any position, `findall` finds nothing, and conversely. */
  lemma {:induction false} FindAllEmpty(line: string, i: nat)
    requires i <= |line|
    ensures FindAllFrom(line, i) == [] <==> forall q | i <= q < |line| :: MatchEnd(line, q).None?
    decreases |line| - i
  {
    if i == |line| {
      assert FindAllFrom(line, i) == [];
    } else {
      FindAllEmpty(line, i + 1);
      match MatchEnd(line, i)
      case Some(e) =>
        assert FindAllFrom(line, i)[0] == line[i..e];
      case None =>
        assert FindAllFrom(line, i) == FindAllFrom(line, i + 1);
        assert (forall q | i <= q < |line| :: MatchEnd(line, q).None?)
               <==> (forall q | i + 1 <= q < |line| :: MatchEnd(line, q).None?);
    }
  }

  // ---------------------------------------------------------------------
  // get_urls

  /** A quoted reply line: `line.startswith('>')`. */
  predicate IsQuoted(line: string)
  {
    StartsWith(line, ">")
  }

  /** What one line adds to the set: nothing when it is quoted. */
  function LineUrls(line: string): set<string>
  {
    if IsQuoted(line) then {} else set u | u in FindAll(line)
  }

  /** The set `get_urls` has built after the given lines. */
  function UrlsOfLines(lines: seq<string>): set<string>
  {
    if lines == [] then {}
    else UrlsOfLines(lines[..|lines| - 1]) + LineUrls(lines[|lines| - 1])
  }

  /** The set of URLs `get_urls(text)` yields. */
  function UrlsOf(text: string): set<string>
  {
    UrlsOfLines(SplitLines(text))
  }

  /**
   * `get_urls`: collect the URL_RE matches of every line that does not
   * start with '>' into a set, then yield each member of the set once.
   * The order of the second loop is the set's iteration order, which
   * Python leaves unspecified; here it is an arbitrary choice.
   */
  method GetUrls(text: string) returns (urls: seq<string>)
    ensures forall a, b | 0 <= a < b < |urls| :: urls[a] != urls[b]
    ensures forall u :: u in urls <==> u in UrlsOf(text)
  {
    var lines := SplitLines(text);
    var found: set<string> := {};
    var i := 0;
    while i < |lines|
      invariant 0 <= i <= |lines|
      invariant found == UrlsOfLines(lines[..i])
    {
      if !IsQuoted(lines[i]) {
        found := found + LineUrls(lines[i]);
      }
      assert lines[..i + 1][..i] == lines[..i];
      i := i + 1;
    }
    assert lines[..i] == lines;

    urls := [];
    var pending := found;
    while pending != {}
      invariant pending <= found
      invariant forall u :: u in urls <==> u in found && u !in pending
      invariant forall a, b | 0 <= a < b < |urls| :: urls[a] != urls[b]
      decreases |pending|
    {
      var u :| u in pending;
      urls := urls + [u];
      pending := pending - {u};
    }
  }

  /** A URL is collected exactly when some unquoted line yields it. */
  lemma UrlsOfLinesMembers(lines: seq<string>, u: string)
    ensures u in UrlsOfLines(lines)
            <==> exists k | 0 <= k < |lines| :: !IsQuoted(lines[k]) && u in FindAll(lines[k])
  {
    UrlsOfLinesLineUrls(lines, u);
    assert forall k | 0 <= k < |lines| ::
             u in LineUrls(lines[k]) <==> !IsQuoted(lines[k]) && u in FindAll(lines[k]);
  }

  /** The set after the given lines is the union of what each line adds. */
  lemma {:induction false} UrlsOfLinesLineUrls(lines: seq<string>, u: string)
    ensures u in UrlsOfLines(lines) <==> exists k | 0 <= k < |lines| :: u in LineUrls(lines[k])
    decreases |lines|
  {
    if lines != [] {
      var init := lines[..|lines| - 1];
      UrlsOfLinesLineUrls(init, u);
      assert forall k | 0 <= k < |init| :: init[k] == lines[k];
    }
  }

  /**
   * Quoted lines contribute nothing: a URL is yielded if and only if some
   * line not starting with '>' contains it as a URL_RE match.
   */
  lemma UrlsComeFromUnquotedLines(text: string, u: string)
    ensures u in UrlsOf(text)
            <==> exists line | line in SplitLines(text) :: !IsQuoted(line) && u in FindAll(line)
  {
    var lines := SplitLines(text);
    UrlsOfLinesMembers(lines, u);
    if u in UrlsOf(text) {
      var k :| 0 <= k < |lines| && !IsQuoted(lines[k]) && u in FindAll(lines[k]);
      assert lines[k] in lines;
    }
  }

  /**
   * Every yielded URL starts with "http://" or "https://", continues with
   * URL_RE class characters only, and is a greedy match inside an unquoted
   * line: the character after it there, if any, is outside the class.
   */
  lemma UrlsAreMaximalMatches(text: string, u: string)
    requires u in UrlsOf(text)
    ensures UrlShaped(u)
    ensures exists line, p | line in SplitLines(text) :: !IsQuoted(line) && MaximalUrlAt(line, p, u)
  {
    UrlsComeFromUnquotedLines(text, u);
    var line :| line in SplitLines(text) && !IsQuoted(line) && u in FindAll(line);
    var k :| 0 <= k < |FindAll(line)| && FindAll(line)[k] == u;
    var p :| 0 <= p && MaximalUrlAt(line, p, u);
  }

  /** No match can start at a character other than 'h'. */
  lemma NoMatchOffH(line: string, q: nat)
    requires q < |line| && line[q] != 'h'
    ensures MatchEnd(line, q).None?
  {
    assert line[q..][0] == line[q];
  }

  /** A two-line text whose second line is quoted, and the URL on its first line. */
  const ExampleFirst: string := "see http://a.example/x"
  const ExampleSecond: string := "> http://b.example/y"
  const ExampleUrl: string := "http://a.example/x"

  lemma ExampleSchemeEnd()
    ensures SchemeEnd(ExampleFirst, 4) == Some(11)
  {
    assert ExampleFirst[4..][..8][4] == ':';
    assert ExampleFirst[4..][..7] == "http://";
  }

  lemma ExampleMatchEnd()
    ensures MatchEnd(ExampleFirst, 4) == Some(|ExampleFirst|)
  {
    ExampleSchemeEnd();
    assert forall k | 11 <= k < |ExampleFirst| :: IsUrlChar(ExampleFirst[k]);
  }

  lemma ExampleNoEarlierMatch()
    ensures forall q | 0 <= q < 4 :: MatchEnd(ExampleFirst, q).None?
  {
    forall q | 0 <= q < 4 ensures MatchEnd(ExampleFirst, q).None? {
      NoMatchOffH(ExampleFirst, q);
    }
  }

  /** The unquoted line holds one URL, after "see ". */
  lemma FindAllExample()
    ensures FindAll(ExampleFirst) == [ExampleUrl]
  {
    ExampleMatchEnd();
    ExampleNoEarlierMatch();
    FindAllLeftmost(ExampleFirst, 0, 4);
    ExampleUrlAt4();
  }

  lemma ExampleUrlAt4()
    ensures ExampleFirst[4..|ExampleFirst|] == ExampleUrl
  {
  }

  /** "see http://a.example/x\n> http://b.example/y\n" */
  const ExampleText: string := ExampleFirst + "\n" + ExampleRest
  const ExampleRest: string := ExampleSecond + "\n"

  lemma ExampleFirstBreakFree()
    ensures '\n' !in ExampleFirst && '\r' !in ExampleFirst
  {
  }

  lemma ExampleSecondBreakFree()
    ensures '\n' !in ExampleSecond && '\r' !in ExampleSecond
  {
  }

  lemma SplitLinesExample()
    ensures SplitLines(ExampleText) == [ExampleFirst, ExampleSecond]
  {
    ExampleFirstBreakFree();
    ExampleSecondBreakFree();
    BreakFree(ExampleFirst);
    BreakFree(ExampleSecond);
    assert ExampleText == ExampleFirst + ("\n" + ExampleRest);
    assert ExampleRest == ExampleSecond + ("\n" + []);
    SplitLinesStep(ExampleFirst, "\n", ExampleRest);
    SplitLinesStep(ExampleSecond, "\n", []);
    assert SplitLines([]) == [];
  }


  lemma ExampleLineUrls()
    ensures LineUrls(ExampleFirst) == {ExampleUrl}
    ensures LineUrls(ExampleSecond) == {}
  {
    assert ExampleFirst[..1][0] == 's' && ExampleSecond[..1] == ">";
    assert !IsQuoted(ExampleFirst) && IsQuoted(ExampleSecond);
    FindAllExample();
    assert forall u :: u in LineUrls(ExampleFirst) <==> u == ExampleUrl;
  }

  /**
   * Of "see http://a.example/x" and the quoted
   * "> http://b.example/y", only the first line's URL is collected.
   */
  lemma UrlsOfExample()
    ensures UrlsOf(ExampleText) == {ExampleUrl}
  {
    SplitLinesExample();
    ExampleLineUrls();
    var lines := [ExampleFirst, ExampleSecond];
    var single: seq<string> := [ExampleFirst];
    assert lines[..1] == single && single[..0] == [];
    assert UrlsOfLines(single) == LineUrls(ExampleFirst);
    assert UrlsOfLines(lines) == UrlsOfLines(single) + LineUrls(ExampleSecond);
  }

  // ---------------------------------------------------------------------
  // VID_RE = '(v=(?P<query>[^&]*))|(youtu.be/(?P<path>.*))'

  /** The first alternative matches at `p`. */
  predicate QueryAt(url: string, p: int)
  {
    0 <= p && p + 2 <= |url| && url[p] == 'v' && url[p + 1] == '='
  }

  /** The second alternative matches at `p`; its unescaped `.` is any character but a newline. */
  predicate ShortHostAt(url: string, p: int)
  {
    && 0 <= p && p + 9 <= |url|
    && url[p..p + 5] == "youtu" && url[p + 5] != '\n' && url[p + 6..p + 9] == "be/"
  }

  predicate VidMatchAt(url: string, p: int)
  {
    QueryAt(url, p) || ShortHostAt(url, p)
  }

  predicate NotAmpersand(c: char)
  {
    c != '&'
  }

  predicate NotNewline(c: char)
  {
    c != '\n'
  }

  /** The `query` group: the longest run of non-'&' characters after "v=". */
  function QueryGroup(url: string, p: int): (q: string)
    requires QueryAt(url, p)
    ensures forall k | 0 <= k < |q| :: q[k] != '&'
    ensures p + 2 + |q| <= |url| && url[p + 2..p + 2 + |q|] == q
    ensures p + 2 + |q| == |url| || url[p + 2 + |q|] == '&'
  {
    url[p + 2..SpanEnd(url, p + 2, NotAmpersand)]
  }

  /** The `path` group: the rest of the line after "youtu?be/". */
  function PathGroup(url: string, p: int): (path: string)
    requires ShortHostAt(url, p)
    ensures forall k | 0 <= k < |path| :: path[k] != '\n'
    ensures p + 9 + |path| <= |url| && url[p + 9..p + 9 + |path|] == path
    ensures p + 9 + |path| == |url| || url[p + 9 + |path|] == '\n'
  {
    url[p + 9..SpanEnd(url, p + 9, NotNewline)]
  }

  /**
   * `m.groupdict()['query'] or m.groupdict()['path']` for a match at `p`:
   * an empty query gives `'' or None`, that is `None`; an empty path gives
   * `None or ''`, that is `''`.
   */
  function GroupValue(url: string, p: int): (r: Option<string>)
    requires VidMatchAt(url, p)
    ensures r.None? <==> QueryAt(url, p) && QueryGroup(url, p) == []
    ensures r.Some? && QueryAt(url, p) ==> r.value != [] && forall k | 0 <= k < |r.value| :: r.value[k] != '&'
    ensures r.Some? && !QueryAt(url, p) ==> forall k | 0 <= k < |r.value| :: r.value[k] != '\n'
  {
    if QueryAt(url, p) then
      var q := QueryGroup(url, p);
      if q == [] then None else Some(q)
    else Some(PathGroup(url, p))
  }

  /** `r` is what a match of `VID_RE` at some position from `i` on selects. */
  ghost predicate IdOfMatchFrom(url: string, i: int, r: Option<string>)
  {
    exists p | i <= p < |url| :: VidMatchAt(url, p) && GroupValue(url, p) == r
  }

  /** `VID_RE.search(url[p:])` followed by the group selection. */
  function VideoIdFrom(url: string, i: nat): (r: Option<string>)
    requires i <= |url|
    ensures (forall q | i <= q < |url| :: !VidMatchAt(url, q)) ==> r.None?
    ensures r.Some? ==> IdOfMatchFrom(url, i, r)
    decreases |url| - i
  {
    if i == |url| then None
    else if VidMatchAt(url, i) then
      var r := GroupValue(url, i);
      assert r.Some? ==> IdOfMatchFrom(url, i, r) by {
        if r.Some? {
          assert VidMatchAt(url, i) && GroupValue(url, i) == r;
        }
      }
      r
    else
      var r := VideoIdFrom(url, i + 1);
      assert r.Some? ==> IdOfMatchFrom(url, i, r) by {
        if r.Some? {
          var p :| i + 1 <= p < |url| && VidMatchAt(url, p) && GroupValue(url, p) == r;
        }
      }
      r
  }

  /**
   * `get_video_id(url)`: `None` when `VID_RE` matches nowhere (the implicit
   * result), and otherwise a value some match selects.
   */
  function VideoId(url: string): (r: Option<string>)
    ensures (forall q | 0 <= q < |url| :: !VidMatchAt(url, q)) ==> r.None?
    ensures r.Some? ==> IdOfMatchFrom(url, 0, r)
  {
    VideoIdFrom(url, 0)
  }

  /** The leftmost match decides, whichever alternative it is. */
  lemma {:induction false} VideoIdLeftmost(url: string, i: nat, p: nat)
    requires i <= p && VidMatchAt(url, p)
    requires forall q | i <= q < p :: !VidMatchAt(url, q)
    ensures VideoIdFrom(url, i) == GroupValue(url, p)
    decreases p - i
  {
    if i < p {
      assert !VidMatchAt(url, i);
      assert VideoIdFrom(url, i) == VideoIdFrom(url, i + 1);
      VideoIdLeftmost(url, i + 1, p);
    } else {
      assert p < |url|;
      assert VideoIdFrom(url, i) == GroupValue(url, p);
    }
  }

  /** Without a match anywhere the result is `None`. */
  lemma {:induction false} VideoIdNoMatch(url: string, i: nat)
    requires i <= |url|
    requires forall q | i <= q < |url| :: !VidMatchAt(url, q)
    ensures VideoIdFrom(url, i) == None
    decreases |url| - i
  {
    if i < |url| {
      VideoIdNoMatch(url, i + 1);
    }
  }

  /**
   * When "v=" occurs no later than any "youtu?be/", the id is the maximal
   * non-empty run of non-'&' characters after the leftmost "v=", and it
   * never contains '&'; an empty run gives `None`.
   */
  lemma VideoIdFromQuery(url: string, p: nat)
    requires QueryAt(url, p)
    requires forall q | 0 <= q < p :: !VidMatchAt(url, q)
    ensures VideoId(url) == (if QueryGroup(url, p) == [] then None else Some(QueryGroup(url, p)))
    ensures VideoId(url).Some? ==> forall k | 0 <= k < |VideoId(url).value| :: VideoId(url).value[k] != '&'
  {
    VideoIdLeftmost(url, 0, p);
  }

  /** When "youtu?be/" comes first, the id is the rest of the line after it, possibly empty. */
  lemma VideoIdFromShortHost(url: string, p: nat)
    requires ShortHostAt(url, p)
    requires forall q | 0 <= q < p :: !VidMatchAt(url, q)
    ensures VideoId(url) == Some(PathGroup(url, p))
  {
    assert url[p..p + 5][0] == url[p];
    assert !QueryAt(url, p);
    VideoIdLeftmost(url, 0, p);
  }

  /**
   * Neither alternative can start before `p` when there is no 'v' there and
   * no 'y' before `yFree`, past which "youtu?be/" no longer fits.
   */
  lemma NoMatchBefore(url: string, p: nat, yFree: nat)
    requires yFree <= p <= |url|
    requires 'v' !in url[..p] && 'y' !in url[..yFree]
    requires yFree == p || yFree + 8 >= |url|
    ensures forall q | 0 <= q < p :: !VidMatchAt(url, q)
  {
    forall q | 0 <= q < p ensures !VidMatchAt(url, q) {
      assert url[q] == url[..p][q];
      if q < yFree {
        assert url[q] == url[..yFree][q];
      }
      if q + 5 <= |url| {
        assert url[q..q + 5][0] == url[q];
      }
    }
  }

  /** The `query` group is pinned down by where its run of non-'&' characters stops. */
  lemma QueryGroupIs(url: string, p: nat, v: string)
    requires QueryAt(url, p) && p + 2 + |v| <= |url| && url[p + 2..p + 2 + |v|] == v
    requires forall k | 0 <= k < |v| :: v[k] != '&'
    requires p + 2 + |v| == |url| || url[p + 2 + |v|] == '&'
    ensures QueryGroup(url, p) == v
  {
  }

  /** The `path` group is pinned down by where its run of non-newline characters stops. */
  lemma PathGroupIs(url: string, p: nat, v: string)
    requires ShortHostAt(url, p) && p + 9 + |v| <= |url| && url[p + 9..p + 9 + |v|] == v
    requires forall k | 0 <= k < |v| :: v[k] != '\n'
    requires p + 9 + |v| == |url| || url[p + 9 + |v|] == '\n'
    ensures PathGroup(url, p) == v
  {
  }

  const QueryExampleUrl: string := "http://host/watch?v=abc123&x=1"

  lemma QueryExampleFacts()
    ensures QueryAt(QueryExampleUrl, 18)
    ensures 'v' !in QueryExampleUrl[..18] && 'y' !in QueryExampleUrl[..18]
    ensures QueryExampleUrl[20..26] == "abc123" && QueryExampleUrl[26] == '&'
  {
  }

  /** The query form: the id runs from "v=" to the next '&'. */
  lemma VideoIdQueryExample()
    ensures VideoId(QueryExampleUrl) == Some("abc123")
  {
    QueryExampleFacts();
    NoMatchBefore(QueryExampleUrl, 18, 18);
    QueryGroupIs(QueryExampleUrl, 18, "abc123");
    VideoIdFromQuery(QueryExampleUrl, 18);
  }

  const EmptyQueryExampleUrl: string := "http://h/w?v=&f=youtu.be/abc"

  lemma EmptyQueryExampleFacts()
    ensures QueryAt(EmptyQueryExampleUrl, 11) && EmptyQueryExampleUrl[13] == '&'
    ensures 'v' !in EmptyQueryExampleUrl[..11] && 'y' !in EmptyQueryExampleUrl[..11]
  {
  }

  /** An empty `v=` value gives `None`, even though "youtu.be/" follows it. */
  lemma VideoIdEmptyQueryExample()
    ensures VideoId(EmptyQueryExampleUrl) == None
  {
    EmptyQueryExampleFacts();
    NoMatchBefore(EmptyQueryExampleUrl, 11, 11);
    QueryGroupIs(EmptyQueryExampleUrl, 11, []);
    VideoIdFromQuery(EmptyQueryExampleUrl, 11);
  }

  const ShortHostExampleUrl: string := "http://youtu.be/xyz789"

  lemma ShortHostExampleFacts()
    ensures ShortHostExampleUrl[7..12] == "youtu" && ShortHostExampleUrl[12] != '\n'
    ensures ShortHostExampleUrl[13..16] == "be/" && ShortHostExampleUrl[16..] == "xyz789"
    ensures 'v' !in ShortHostExampleUrl[..7] && 'y' !in ShortHostExampleUrl[..7]
  {
  }

  /** The short-host form. */
  lemma VideoIdShortHostExample()
    ensures VideoId(ShortHostExampleUrl) == Some("xyz789")
  {
    ShortHostExampleFacts();
    assert ShortHostAt(ShortHostExampleUrl, 7);
    NoMatchBefore(ShortHostExampleUrl, 7, 7);
    assert forall k | 0 <= k < 6 :: "xyz789"[k] != '\n';
    PathGroupIs(ShortHostExampleUrl, 7, "xyz789");
    VideoIdFromShortHost(ShortHostExampleUrl, 7);
  }

  const OtherHostExampleUrl: string := "http://short.host/xyz789"

  lemma OtherHostExampleFacts()
    ensures 'v' !in OtherHostExampleUrl && 'y' !in OtherHostExampleUrl[..16]
  {
  }

  /** Only "youtu?be/" counts as a short host: any other host gives `None`. */
  lemma VideoIdOtherHostExample()
    ensures VideoId(OtherHostExampleUrl) == None
  {
    OtherHostExampleFacts();
    assert OtherHostExampleUrl[..|OtherHostExampleUrl|] == OtherHostExampleUrl;
    NoMatchBefore(OtherHostExampleUrl, |OtherHostExampleUrl|, 16);
    VideoIdNoMatch(OtherHostExampleUrl, 0);
  }

  const NoPatternExampleUrl: string := "http://host/nopattern"

  lemma NoPatternExampleFacts()
    ensures 'v' !in NoPatternExampleUrl && 'y' !in NoPatternExampleUrl
  {
  }

  /** A URL with neither "v=" nor "youtu?be/" gives `None`. */
  lemma VideoIdNoPatternExample()
    ensures VideoId(NoPatternExampleUrl) == None
  {
    NoPatternExampleFacts();
    assert NoPatternExampleUrl[..|NoPatternExampleUrl|] == NoPatternExampleUrl;
    NoMatchBefore(NoPatternExampleUrl, |NoPatternExampleUrl|, |NoPatternExampleUrl|);
    VideoIdNoMatch(NoPatternExampleUrl, 0);
  }

  // ---------------------------------------------------------------------
  // get_message_text

  /** One part of a parsed message, in `msg.walk()` order. */
  datatype Part = Part(contentType: string, payload: string)

  datatype TextError = NoTextPart  // RuntimeError('No text for email ...')

  const TextPlain := "text/plain"

  /** The header that marks a message nested inside its own text part. */
  const DoubleHeaderMarker := "X-Google-Groups:"

  /**
   * What the model assumes of `email.message_from_string(s).walk()`,
   * given as `parse`: the payload of a text/plain part is strictly
   * shorter than the message it was parsed from. Python's own parser does
   * not always shrink: "hi\nX-Google-Groups: x" starts with a line that is
   * not a header, so the whole message becomes the payload of one
   * text/plain part and `get_message_text` recurses on it without end.
   */
  ghost predicate ParserShrinks(parse: string -> seq<Part>)
  {
    forall s: string, k: int {:trigger parse(s)[k]} ::
      0 <= k < |parse(s)| && parse(s)[k].contentType == TextPlain ==> |parse(s)[k].payload| < |s|
  }

  /** `k` is the first text/plain part in walk order. */
  predicate IsFirstTextPart(parts: seq<Part>, k: int)
  {
    && 0 <= k < |parts| && parts[k].contentType == TextPlain
    && forall j | 0 <= j < k :: parts[j].contentType != TextPlain
  }

  /** The index the `for part in msg.walk()` loop stops at, if any. */
  function FirstTextPart(parts: seq<Part>): (r: Option<nat>)
    ensures r.Some? ==> IsFirstTextPart(parts, r.value)
    ensures r.None? ==> forall j | 0 <= j < |parts| :: parts[j].contentType != TextPlain
  {
    if parts == [] then None
    else if parts[0].contentType == TextPlain then Some(0)
    else match FirstTextPart(parts[1..])
      case Some(k) => Some(k + 1)
      case None => None
  }

  /**
   * `get_message_text(message)`: the payload of the first text/plain part,
   * re-parsed as a message of its own while it carries the marker.
   */
  function MessageText(parse: string -> seq<Part>, message: string): (r: Result<string, TextError>)
    requires ParserShrinks(parse)
    ensures r.Ok? ==> !Contains(r.value, DoubleHeaderMarker)
    ensures r.Ok? ==> |r.value| < |message|
    decreases |message|
  {
    var parts := parse(message);
    match FirstTextPart(parts)
    case None => Err(NoTextPart)
    case Some(k) =>
      var text := parts[k].payload;
      if Contains(text, DoubleHeaderMarker) then MessageText(parse, text) else Ok(text)
  }

  /**
   * The loop of `get_message_text`: walk the parts, stop at the first
   * text/plain one, recurse on its payload when it has double headers,
   * and fail when the walk ends without one.
   */
  method GetMessageText(parse: string -> seq<Part>, message: string) returns (r: Result<string, TextError>)
    requires ParserShrinks(parse)
    ensures r == MessageText(parse, message)
    decreases |message|
  {
    var parts := parse(message);
    var i := 0;
    while i < |parts|
      invariant 0 <= i <= |parts|
      invariant forall j | 0 <= j < i :: parts[j].contentType != TextPlain
    {
      if parts[i].contentType == TextPlain {
        assert IsFirstTextPart(parts, i);
        var text := parts[i].payload;
        if Contains(text, DoubleHeaderMarker) {
          r := GetMessageText(parse, text);
        } else {
          r := Ok(text);
        }
        return;
      }
      i := i + 1;
    }
    r := Err(NoTextPart);
  }

  /**
   * `get_message_text` in terms of the first text/plain part in walk
   * order: no such part is the RuntimeError; a payload without the marker
   * is the result; a payload with it is parsed again.
   */
  lemma MessageTextSelectsFirstPlainPart(parse: string -> seq<Part>, message: string, k: int)
    requires ParserShrinks(parse)
    ensures (forall j | 0 <= j < |parse(message)| :: parse(message)[j].contentType != TextPlain)
            ==> MessageText(parse, message) == Err(NoTextPart)
    ensures IsFirstTextPart(parse(message), k) && !Contains(parse(message)[k].payload, DoubleHeaderMarker)
            ==> MessageText(parse, message) == Ok(parse(message)[k].payload)
    ensures IsFirstTextPart(parse(message), k) && Contains(parse(message)[k].payload, DoubleHeaderMarker)
            ==> MessageText(parse, message) == MessageText(parse, parse(message)[k].payload)
  {
  }
}
