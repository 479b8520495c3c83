/**
 * The Python `str` built-ins the core relies on: `in`, `startswith`,
 * slicing past the end, `splitlines()`, `split()`, `strip(c)`, `lower()`
 * and `replace(old, new)`.
 */
module PyStr {

  /** `sub` occurs in `s` starting at index `i`. */
  predicate OccursAt(s: string, sub: string, i: int)
  {
    0 <= i && i + |sub| <= |s| && s[i..i + |sub|] == sub
  }

  /** Python's `sub in s`. */
  predicate Contains(s: string, sub: string)
  {
    exists i | 0 <= i <= |s| :: OccursAt(s, sub, i)
  }

  /** Python's `s.startswith(prefix)`. */
  predicate StartsWith(s: string, prefix: string)
  {
    |prefix| <= |s| && s[..|prefix|] == prefix
  }

  /** Python's `s[n:]`: empty when `n` is past the end. */
  function SliceFrom(s: string, n: nat): (r: string)
    ensures n <= |s| ==> s == s[..n] + r
    ensures n > |s| ==> r == []
  {
    if n <= |s| then s[n..] else []
  }

  /**
   * The end of the longest run of characters satisfying `inSpan` that
   * starts at `i`: the engine behind greedy `[...]*` matches.
   */
  function SpanEnd(s: string, i: nat, inSpan: char -> bool): (j: nat)
    requires i <= |s|
    ensures i <= j <= |s|
    ensures forall k | i <= k < j :: inSpan(s[k])
    ensures j == |s| || !inSpan(s[j])
    decreases |s| - i
  {
    if i == |s| || !inSpan(s[i]) then i else SpanEnd(s, i + 1, inSpan)
  }

  // ---------------------------------------------------------------------
  // splitlines()

  /** `SpanEnd` is pinned down by where its run stops. */
  lemma SpanEndIs(s: string, i: nat, j: nat, inSpan: char -> bool)
    requires i <= j <= |s|
    requires forall k | i <= k < j :: inSpan(s[k])
    requires j == |s| || !inSpan(s[j])
    ensures SpanEnd(s, i, inSpan) == j
  {
  }

  /**
   * Line boundaries of `str.splitlines()` on a Python 2 byte string:
   * "\n", "\r" and the pair "\r\n".
   */
  predicate IsLineBreak(c: char)
  {
    c == '\n' || c == '\r'
  }

  predicate NotLineBreak(c: char)
  {
    !IsLineBreak(c)
  }

  /** Python's `s.splitlines()`: no trailing empty line, "\r\n" is one break. */
  function SplitLines(s: string): (lines: seq<string>)
    ensures forall k, m | 0 <= k < |lines| && 0 <= m < |lines[k]| :: !IsLineBreak(lines[k][m])
    decreases |s|
  {
    if s == [] then []
    else
      var e := SpanEnd(s, 0, NotLineBreak);
      if e == |s| then [s]
      else
        [s[..e]] + SplitLines(s[BreakEnd(s, e)..])
  }

  /** The characters of `s` with every line break removed. */
  function DropLineBreaks(s: string): string
  {
    if s == [] then []
    else (if IsLineBreak(s[0]) then [] else [s[0]]) + DropLineBreaks(s[1..])
  }

  function Concat(lines: seq<string>): string
  {
    if lines == [] then [] else lines[0] + Concat(lines[1..])
  }

  lemma {:induction false} DropLineBreaksAppend(a: string, b: string)
    ensures DropLineBreaks(a + b) == DropLineBreaks(a) + DropLineBreaks(b)
    decreases |a|
  {
    if a == [] {
      assert a + b == b;
    } else {
      assert (a + b)[0] == a[0];
      assert (a + b)[1..] == a[1..] + b;
      DropLineBreaksAppend(a[1..], b);
    }
  }

  lemma {:induction false} DropLineBreaksNone(s: string)
    requires forall k | 0 <= k < |s| :: !IsLineBreak(s[k])
    ensures DropLineBreaks(s) == s
    decreases |s|
  {
    if s != [] {
      DropLineBreaksNone(s[1..]);
    }
  }

  /** Where the line break found at `e` ends: "\r\n" is one break. */
  function BreakEnd(s: string, e: nat): (next: nat)
    requires e < |s| && IsLineBreak(s[e])
    ensures e < next <= |s|
    ensures forall k | e <= k < next :: IsLineBreak(s[k])
  {
    if s[e] == '\r' && e + 1 < |s| && s[e + 1] == '\n' then e + 2 else e + 1
  }

  lemma {:induction false} DropLineBreaksAcrossBreak(s: string, e: nat, next: nat)
    requires e < next <= |s|
    requires forall k | 0 <= k < e :: !IsLineBreak(s[k])
    requires forall k | e <= k < next :: IsLineBreak(s[k])
    ensures DropLineBreaks(s) == s[..e] + DropLineBreaks(s[next..])
  {
    var head, breaks, tail := s[..e], s[e..next], s[next..];
    assert s == head + (breaks + tail);
    var dropped := DropLineBreaks(tail);
    assert DropLineBreaks(breaks + tail) == dropped by {
      assert forall k | 0 <= k < |breaks| :: IsLineBreak(breaks[k]) by {
        assert forall k | 0 <= k < |breaks| :: breaks[k] == s[e + k];
      }
      DropLineBreaksAllBreaks(breaks);
      DropLineBreaksAppend(breaks, tail);
      assert [] + dropped == dropped;
    }
    assert forall k | 0 <= k < |head| :: !IsLineBreak(head[k]) by {
      assert forall k | 0 <= k < |head| :: head[k] == s[k];
    }
    DropLineBreaksNone(head);
    DropLineBreaksAppend(head, breaks + tail);
  }

  lemma {:induction false} DropLineBreaksAllBreaks(s: string)
    requires forall k | 0 <= k < |s| :: IsLineBreak(s[k])
    ensures DropLineBreaks(s) == []
    decreases |s|
  {
    if s != [] {
      DropLineBreaksAllBreaks(s[1..]);
    }
  }

  /**
   * The lines returned by `splitlines()` hold exactly the text's
   * characters other than line breaks, in order: nothing is lost and
   * nothing is duplicated.
   */
  lemma {:induction false} SplitLinesKeepsText(s: string)
    ensures Concat(SplitLines(s)) == DropLineBreaks(s)
    decreases |s|
  {
    if s != [] {
      var e := SpanEnd(s, 0, NotLineBreak);
      if e == |s| {
        DropLineBreaksNone(s);
        assert SplitLines(s) == [s];
        assert Concat([s]) == s + Concat([]);
      } else {
        var next := BreakEnd(s, e);
        var lines := SplitLines(s);
        assert lines == [s[..e]] + SplitLines(s[next..]);
        assert lines[1..] == SplitLines(s[next..]);
        SplitLinesKeepsText(s[next..]);
        DropLineBreaksAcrossBreak(s, e, next);
      }
    }
  }

  /** A line terminator `splitlines` recognises. */
  predicate IsLineSeparator(sep: string)
  {
    sep == "\n" || sep == "\r\n" || sep == "\r"
  }

  /** Each line followed by its own terminator. */
  function JoinLines(lines: seq<string>, seps: seq<string>): string
    requires |seps| == |lines|
  {
    if lines == [] then [] else lines[0] + seps[0] + JoinLines(lines[1..], seps[1..])
  }

  /**
   * Break-free lines, each ended by a terminator, except that the last one
   * may be left unterminated when it is not empty; a lone "\r" is never
   * followed directly by "\n", with which it would form one break.
   */
  predicate WellSeparated(lines: seq<string>, seps: seq<string>)
  {
    && |seps| == |lines|
    && (forall k, m | 0 <= k < |lines| && 0 <= m < |lines[k]| :: !IsLineBreak(lines[k][m]))
    && (forall k | 0 <= k < |lines| ::
          IsLineSeparator(seps[k]) || (k == |lines| - 1 && seps[k] == [] && lines[k] != []))
    && (forall k | 0 <= k < |lines| - 1 && seps[k] == "\r" :: lines[k + 1] != [] || seps[k + 1] != "\n")
  }

  lemma WellSeparatedTail(lines: seq<string>, seps: seq<string>)
    requires lines != [] && WellSeparated(lines, seps)
    ensures WellSeparated(lines[1..], seps[1..])
  {
    forall k | 0 <= k < |lines| - 2 && seps[1..][k] == "\r"
      ensures lines[1..][k + 1] != [] || seps[1..][k + 1] != "\n"
    {
      assert seps[k + 1] == "\r";
    }
  }

  /** The first character of a joined text that is not the first line's. */
  lemma JoinLinesStart(lines: seq<string>, seps: seq<string>)
    requires lines != [] && WellSeparated(lines, seps)
    ensures var s := JoinLines(lines, seps);
            s == [] || (lines[0] == [] && s[0] == seps[0][0]) || (lines[0] != [] && s[0] == lines[0][0])
  {
  }

  /** A string without '\n' and '\r' holds no line break. */
  lemma BreakFree(s: string)
    requires '\n' !in s && '\r' !in s
    ensures forall k | 0 <= k < |s| :: !IsLineBreak(s[k])
  {
    forall k | 0 <= k < |s| ensures !IsLineBreak(s[k]) {
      assert s[k] in s;
    }
  }

  /** One step of `splitlines`: a break-free line and its terminator come off the front. */
  lemma SplitLinesStep(t: string, sep: string, rest: string)
    requires forall k | 0 <= k < |t| :: !IsLineBreak(t[k])
    requires IsLineSeparator(sep) || (sep == [] && rest == [] && t != [])
    requires sep == "\r" && rest != [] ==> rest[0] != '\n'
    ensures SplitLines(t + (sep + rest)) == [t] + SplitLines(rest)
  {
    if sep == [] {
      assert t + (sep + rest) == t;
      SpanEndIs(t, 0, |t|, NotLineBreak);
    } else {
      SplitLinesAtBreak(t, sep, rest);
    }
  }

  lemma SplitLinesAtBreak(t: string, sep: string, rest: string)
    requires forall k | 0 <= k < |t| :: !IsLineBreak(t[k])
    requires IsLineSeparator(sep)
    requires sep == "\r" && rest != [] ==> rest[0] != '\n'
    ensures SplitLines(t + (sep + rest)) == [t] + SplitLines(rest)
  {
    var s := t + (sep + rest);
    var e, next := |t|, |t| + |sep|;
    assert s[..e] == t && s[next..] == rest && IsLineBreak(s[e]) by {
      JoinedAt(t, sep, rest);
    }
    assert SpanEnd(s, 0, NotLineBreak) == e by {
      JoinedAt(t, sep, rest);
      SpanEndIs(s, 0, e, NotLineBreak);
    }
    assert BreakEnd(s, e) == next by {
      JoinedAt(t, sep, rest);
    }
    SplitLinesUnfold(s, e, next);
  }

  /** `splitlines` at a break: the text before it, then the lines after it. */
  lemma SplitLinesUnfold(s: string, e: nat, next: nat)
    requires e < |s| && IsLineBreak(s[e])
    requires SpanEnd(s, 0, NotLineBreak) == e && BreakEnd(s, e) == next
    ensures SplitLines(s) == [s[..e]] + SplitLines(s[next..])
  {
  }

  /** Where the parts of `t + (sep + rest)` sit. */
  lemma JoinedAt(t: string, sep: string, rest: string)
    requires sep != []
    ensures var s := t + (sep + rest);
            && s[..|t|] == t && s[|t| + |sep|..] == rest
            && (forall k | 0 <= k < |t| :: s[k] == t[k])
            && s[|t|] == sep[0]
            && (|sep| > 1 ==> s[|t| + 1] == sep[1])
            && (rest != [] ==> s[|t| + |sep|] == rest[0])
  {
  }

  /** The first line of a well-separated text, its terminator and the rest meet `SplitLinesStep`. */
  lemma JoinLinesHead(lines: seq<string>, seps: seq<string>)
    requires lines != [] && WellSeparated(lines, seps)
    ensures var t, sep, rest := lines[0], seps[0], JoinLines(lines[1..], seps[1..]);
            && (forall k | 0 <= k < |t| :: !IsLineBreak(t[k]))
            && (IsLineSeparator(sep) || (sep == [] && rest == [] && t != []))
            && (sep == "\r" && rest != [] ==> rest[0] != '\n')
  {
    var t, sep, rest := lines[0], seps[0], JoinLines(lines[1..], seps[1..]);
    if sep == [] {
      assert |lines| == 1 && rest == [];
    }
    if sep == "\r" && rest != [] {
      WellSeparatedTail(lines, seps);
      JoinLinesStart(lines[1..], seps[1..]);
    }
  }

  /** `splitlines` undoes `JoinLines`: the lines come back, without their terminators. */
  lemma {:induction false} SplitJoinLines(lines: seq<string>, seps: seq<string>)
    requires WellSeparated(lines, seps)
    ensures SplitLines(JoinLines(lines, seps)) == lines
    decreases |lines|
  {
    if lines != [] {
      var t, sep := lines[0], seps[0];
      var rest := JoinLines(lines[1..], seps[1..]);
      assert JoinLines(lines, seps) == t + (sep + rest);
      WellSeparatedTail(lines, seps);
      SplitJoinLines(lines[1..], seps[1..]);
      JoinLinesHead(lines, seps);
      SplitLinesStep(t, sep, rest);
      assert [t] + lines[1..] == lines;
    }
  }

  // ---------------------------------------------------------------------
  // split()

  /** The characters `str.isspace()` accepts, which `str.split()` splits on. */
  predicate IsSpace(c: char)
  {
    || c == ' '
    || ('\t' <= c <= '\r')
    || ('\U{1c}' <= c <= '\U{1f}')
    || c == '\U{85}'
    || c == '\U{a0}'
    || c == '\U{1680}'
    || ('\U{2000}' <= c <= '\U{200a}')
    || c == '\U{2028}'
    || c == '\U{2029}'
    || c == '\U{202f}'
    || c == '\U{205f}'
    || c == '\U{3000}'
  }

  predicate NotSpace(c: char)
  {
    !IsSpace(c)
  }

  predicate IsToken(t: string)
  {
    t != [] && forall k | 0 <= k < |t| :: !IsSpace(t[k])
  }

  /** Python's `s.split()`: the maximal runs of non-whitespace, in order. */
  function Split(s: string): (tokens: seq<string>)
    ensures forall k | 0 <= k < |tokens| :: IsToken(tokens[k])
    decreases |s|
  {
    if s == [] then []
    else if IsSpace(s[0]) then Split(s[1..])
    else
      var e := SpanEnd(s, 0, NotSpace);
      [s[..e]] + Split(s[e..])
  }

  /** Python's `' '.join(tokens)`. */
  function JoinSpace(tokens: seq<string>): string
  {
    if tokens == [] then []
    else if |tokens| == 1 then tokens[0]
    else tokens[0] + " " + JoinSpace(tokens[1..])
  }

  /** `split()` undoes `' '.join(...)` of whitespace-free, non-empty tokens. */
  lemma {:induction false} SplitJoinSpace(tokens: seq<string>)
    requires forall k | 0 <= k < |tokens| :: IsToken(tokens[k])
    ensures Split(JoinSpace(tokens)) == tokens
    decreases |tokens|
  {
    if tokens != [] {
      var t := tokens[0];
      var s := JoinSpace(tokens);
      assert s[0] == t[0];
      var e := SpanEnd(s, 0, NotSpace);
      if |tokens| == 1 {
        assert s == t;
        assert e == |s|;
        assert s[..e] == t && s[e..] == [];
      } else {
        var rest := JoinSpace(tokens[1..]);
        assert s == t + " " + rest;
        assert s[|t|] == ' ';
        assert forall k | 0 <= k < |t| :: s[k] == t[k];
        assert e == |t|;
        assert s[..e] == t;
        assert s[e..] == " " + rest;
        assert (" " + rest)[1..] == rest;
        assert Split(s[e..]) == Split(rest);
        SplitJoinSpace(tokens[1..]);
      }
    }
  }

  predicate AllSpace(w: string)
  {
    forall k | 0 <= k < |w| :: IsSpace(w[k])
  }

  /** Tokens with whitespace `gaps[k]` before token k and `gaps[|tokens|]` after the last. */
  function JoinGaps(tokens: seq<string>, gaps: seq<string>): string
    requires |gaps| == |tokens| + 1
  {
    if tokens == [] then gaps[0] else gaps[0] + tokens[0] + JoinGaps(tokens[1..], gaps[1..])
  }

  /** Whitespace gaps, non-empty between two tokens and possibly empty at either end. */
  predicate WellGapped(tokens: seq<string>, gaps: seq<string>)
  {
    && |gaps| == |tokens| + 1
    && (forall k | 0 <= k < |tokens| :: IsToken(tokens[k]))
    && (forall k | 0 <= k < |gaps| :: AllSpace(gaps[k]))
    && (forall k | 0 < k < |tokens| :: gaps[k] != [])
  }

  /** Leading whitespace does not change what `split()` returns. */
  lemma {:induction false} SplitSkipsSpace(w: string, s: string)
    requires AllSpace(w)
    ensures Split(w + s) == Split(s)
    decreases |w|
  {
    if w == [] {
      assert w + s == s;
    } else {
      assert IsSpace(w[0]) && (w + s)[0] == w[0];
      assert (w + s)[1..] == w[1..] + s;
      assert AllSpace(w[1..]) by {
        forall k | 0 <= k < |w| - 1 ensures IsSpace(w[1..][k]) {
          assert w[1..][k] == w[k + 1];
        }
      }
      SplitSkipsSpace(w[1..], s);
      assert Split(w + s) == Split((w + s)[1..]);
    }
  }

  /** One step of `split()`: a token followed by nothing or by whitespace comes off the front. */
  lemma SplitTokenStep(t: string, rest: string)
    requires IsToken(t)
    requires rest == [] || IsSpace(rest[0])
    ensures Split(t + rest) == [t] + Split(rest)
  {
    var s := t + rest;
    assert forall k | 0 <= k < |t| :: s[k] == t[k];
    assert |t| < |s| ==> s[|t|] == rest[0];
    SpanEndIs(s, 0, |t|, NotSpace);
    assert s[..|t|] == t && s[|t|..] == rest;
  }

  /** A joined text is empty, starts with whitespace, or starts with its first token. */
  lemma JoinGapsStart(tokens: seq<string>, gaps: seq<string>)
    requires WellGapped(tokens, gaps)
    ensures var s := JoinGaps(tokens, gaps);
            s == [] || IsSpace(s[0]) || (tokens != [] && gaps[0] == [])
  {
    if gaps[0] != [] {
      assert AllSpace(gaps[0]);
      if tokens != [] {
        assert JoinGaps(tokens, gaps)[0] == gaps[0][0];
      }
    }
  }

  /** `split()` returns exactly the tokens, whatever whitespace separates and surrounds them. */
  lemma {:induction false} SplitJoinGaps(tokens: seq<string>, gaps: seq<string>)
    requires WellGapped(tokens, gaps)
    ensures Split(JoinGaps(tokens, gaps)) == tokens
    decreases |tokens|
  {
    if tokens == [] {
      SplitSkipsSpace(gaps[0], []);
      assert gaps[0] + [] == gaps[0];
    } else {
      var t := tokens[0];
      var rest := JoinGaps(tokens[1..], gaps[1..]);
      assert JoinGaps(tokens, gaps) == gaps[0] + (t + rest);
      SplitSkipsSpace(gaps[0], t + rest);
      assert WellGapped(tokens[1..], gaps[1..]) by {
        assert forall k | 0 < k < |tokens| - 1 :: gaps[1..][k] == gaps[k + 1];
      }
      SplitJoinGaps(tokens[1..], gaps[1..]);
      JoinGapsStart(tokens[1..], gaps[1..]);
      assert |tokens| > 1 ==> gaps[1] != [];
      SplitTokenStep(t, rest);
      assert [t] + tokens[1..] == tokens;
    }
  }

  // ---------------------------------------------------------------------
  // strip(c)

  /** Python's `s.lstrip(c)` for a single character `c`. */
  function LStrip(s: string, c: char): (r: string)
    ensures |r| <= |s| && r == s[|s| - |r|..]
    ensures forall k | 0 <= k < |s| - |r| :: s[k] == c
    ensures r == [] || r[0] != c
    decreases |s|
  {
    if s != [] && s[0] == c then LStrip(s[1..], c) else s
  }

  /** Python's `s.rstrip(c)` for a single character `c`. */
  function RStrip(s: string, c: char): (r: string)
    ensures |r| <= |s| && r == s[..|r|]
    ensures forall k | |r| <= k < |s| :: s[k] == c
    ensures r == [] || r[|r| - 1] != c
    ensures r != [] ==> r[0] == s[0]
    decreases |s|
  {
    if s != [] && s[|s| - 1] == c then RStrip(s[..|s| - 1], c) else s
  }

  /** `r` sits at offset `a` of `s`, and everything around it is `c`. */
  predicate PaddedBy(s: string, c: char, a: int, r: string)
  {
    && 0 <= a && a + |r| <= |s| && s[a..a + |r|] == r
    && (forall k | 0 <= k < a :: s[k] == c)
    && (forall k | a + |r| <= k < |s| :: s[k] == c)
  }

  /**
   * Python's `s.strip(c)` for a single character `c`: the core of `s` left
   * once the runs of `c` at both ends are removed.
   */
  function Strip(s: string, c: char): (r: string)
    ensures r == [] || (r[0] != c && r[|r| - 1] != c)
    ensures exists a :: PaddedBy(s, c, a, r)
  {
    StripIsPadded(s, c);
    RStrip(LStrip(s, c), c)
  }

  /** `strip(c)` keeps the core at offset `|s| - |lstrip(s)|`, with only `c` around it. */
  lemma StripIsPadded(s: string, c: char)
    ensures var l := LStrip(s, c);
            var r := RStrip(l, c);
            && PaddedBy(s, c, |s| - |l|, r)
            && (r == [] || r[0] != c)
  {
    var l := LStrip(s, c);
    var r := RStrip(l, c);
    PaddedByParts(s, c, l, r);
  }

  /** A suffix `l` of `s` after a run of `c`, cut down to a prefix `r` before a run of `c`. */
  lemma PaddedByParts(s: string, c: char, l: string, r: string)
    requires |l| <= |s| && l == s[|s| - |l|..]
    requires forall k | 0 <= k < |s| - |l| :: s[k] == c
    requires |r| <= |l| && r == l[..|r|]
    requires forall k | |r| <= k < |l| :: l[k] == c
    ensures PaddedBy(s, c, |s| - |l|, r)
  {
    var a := |s| - |l|;
    assert s[a..a + |r|] == r by {
      assert s[a..][..|r|] == s[a..a + |r|];
    }
    forall k | a + |r| <= k < |s| ensures s[k] == c {
      assert s[k] == l[k - a];
    }
  }

  /** `strip(c)` removes exactly the padding of `c` around a core that is not `c` at either end. */
  lemma StripPadding(left: string, core: string, right: string, c: char)
    requires forall k | 0 <= k < |left| :: left[k] == c
    requires forall k | 0 <= k < |right| :: right[k] == c
    requires core != [] && core[0] != c && core[|core| - 1] != c
    ensures Strip(left + core + right, c) == core
  {
    var s := left + core + right;
    var r := Strip(s, c);
    var a :| PaddedBy(s, c, a, r);
    CorePadded(left, core, right, c);
    PaddingUnique(s, c, a, r, |left|, core);
  }

  /** `core` sits in `left + core + right` padded by `c` when `left` and `right` are all `c`. */
  lemma CorePadded(left: string, core: string, right: string, c: char)
    requires forall k | 0 <= k < |left| :: left[k] == c
    requires forall k | 0 <= k < |right| :: right[k] == c
    ensures PaddedBy(left + core + right, c, |left|, core)
  {
    var s := left + core + right;
    assert s[|left|..|left| + |core|] == core;
    assert forall k | 0 <= k < |left| :: s[k] == left[k];
    assert forall k | |left| + |core| <= k < |s| :: s[k] == right[k - |left| - |core|];
  }

  /** Two cores of `s` padded by `c` that do not start or end with `c` are the same. */
  lemma PaddingUnique(s: string, c: char, a: int, r: string, b: int, q: string)
    requires PaddedBy(s, c, a, r) && PaddedBy(s, c, b, q)
    requires r == [] || (r[0] != c && r[|r| - 1] != c)
    requires q != [] && q[0] != c && q[|q| - 1] != c
    ensures r == q
  {
    assert s[b] == q[0] && s[b + |q| - 1] == q[|q| - 1];
    assert a <= b < a + |r|;
    assert s[a] == r[0] && s[a + |r| - 1] == r[|r| - 1];
    assert a == b && |r| == |q|;
  }

  // ---------------------------------------------------------------------
  // lower()

  /** `c.lower()` on the ASCII letters; every other character is kept. */
  function LowerChar(c: char): char
  {
    if 'A' <= c <= 'Z' then (c as int - 'A' as int + 'a' as int) as char else c
  }

  /** Python's `s.lower()`, restricted to ASCII case mapping. */
  function Lower(s: string): (r: string)
    ensures |r| == |s|
  {
    seq(|s|, k requires 0 <= k < |s| => LowerChar(s[k]))
  }

  // ---------------------------------------------------------------------
  // replace(old, new)

  /** Python's `s.replace(pat, rep)`: every non-overlapping occurrence, scanning left to right. */
  function Replace(s: string, pat: string, rep: string): (r: string)
    requires pat != []
    ensures |rep| == |pat| ==> |r| == |s|
    decreases |s|
  {
    if |s| < |pat| then s
    else if s[..|pat|] == pat then rep + Replace(s[|pat|..], pat, rep)
    else [s[0]] + Replace(s[1..], pat, rep)
  }

  /** With no occurrence of `pat`, `replace` changes nothing. */
  lemma {:induction false} ReplaceAbsent(s: string, pat: string, rep: string)
    requires pat != [] && !Contains(s, pat)
    ensures Replace(s, pat, rep) == s
    decreases |s|
  {
    if |s| >= |pat| {
      assert !OccursAt(s, pat, 0);
      assert !Contains(s[1..], pat) by {
        forall i | 0 <= i <= |s[1..]| ensures !OccursAt(s[1..], pat, i) {
          assert !OccursAt(s, pat, i + 1);
        }
      }
      ReplaceAbsent(s[1..], pat, rep);
    }
  }

  /**
   * A prefix that does not contain the first character of `pat` cannot
   * take part in any occurrence, so `replace` passes it through unchanged.
   */
  lemma {:induction false} ReplaceSkipsPrefix(a: string, b: string, pat: string, rep: string)
    requires pat != []
    requires forall k | 0 <= k < |a| :: a[k] != pat[0]
    ensures Replace(a + b, pat, rep) == a + Replace(b, pat, rep)
    decreases |a|
  {
    if a == [] {
      assert a + b == b;
    } else if |a + b| < |pat| {
      assert Replace(b, pat, rep) == b;
    } else {
      var s := a + b;
      assert s[0] == a[0] && s[1..] == a[1..] + b;
      ReplaceNoMatchHere(s, pat, rep);
      assert forall k | 0 <= k < |a[1..]| :: a[1..][k] != pat[0] by {
        assert forall k | 0 <= k < |a[1..]| :: a[1..][k] == a[k + 1];
      }
      ReplaceSkipsPrefix(a[1..], b, pat, rep);
      ConsOntoTail(a, Replace(b, pat, rep));
    }
  }

  /** Where `s` does not start with the first character of `pat`, `replace` keeps that character. */
  lemma ReplaceNoMatchHere(s: string, pat: string, rep: string)
    requires pat != [] && |s| >= |pat| && s[0] != pat[0]
    ensures Replace(s, pat, rep) == [s[0]] + Replace(s[1..], pat, rep)
  {
    assert s[..|pat|][0] == s[0];
  }

  /** Putting the first character back in front of the rest restores `a`. */
  lemma ConsOntoTail(a: string, r: string)
    requires a != []
    ensures [a[0]] + (a[1..] + r) == a + r
  {
    assert [a[0]] + a[1..] == a;
  }

  /** `replace` passes over a head free of `pat[0]`, then rewrites the `pat` right after it. */
  lemma ReplaceAfterHead(a: string, b: string, pat: string, rep: string)
    requires pat != []
    requires forall k | 0 <= k < |a| :: a[k] != pat[0]
    ensures Replace(a + pat + b, pat, rep) == a + rep + Replace(b, pat, rep)
  {
    assert a + pat + b == a + (pat + b);
    ReplaceSkipsPrefix(a, pat + b, pat, rep);
    ReplaceAtFront(b, pat, rep);
  }

  /** An occurrence of `pat` at the front is replaced and the scan resumes after it. */
  lemma ReplaceAtFront(b: string, pat: string, rep: string)
    requires pat != []
    ensures Replace(pat + b, pat, rep) == rep + Replace(b, pat, rep)
  {
    assert (pat + b)[..|pat|] == pat;
    assert (pat + b)[|pat|..] == b;
  }
}
