/**
 * newschimp/social/gg.py: the computations of the Google Groups curator
 * that do not drive the browser. These are the month table and
 * `date_parse`, the message window of a topic page, the topic listing URL,
 * the message ids taken from snippet element ids, and the raw-message URLs.
 */
module GoogleGroups {
  import opened Wrappers
  import opened PyStr
  import opened PyInt

  // ---------------------------------------------------------------------
  // MONTHS and date_parse

  /** `MONTHS`, with `_` the identity of the fallback translation. */
  const Months: map<string, int> := map[
    "january" := 1, "february" := 2, "march" := 3, "april" := 4,
    "may" := 5, "june" := 6, "july" := 7, "august" := 8,
    "september" := 9, "october" := 10, "november" := 11, "december" := 12
  ]

  /** The keys of `Months`, listed by value. */
  const MonthNames: seq<string> := [
    "january", "february", "march", "april", "may", "june",
    "july", "august", "september", "october", "november", "december"
  ]

  /** `Months` is a bijection between twelve names and the numbers 1..12. */
  lemma MonthsBijective()
    ensures |MonthNames| == 12
    ensures forall k | 0 <= k < 12 :: MonthNames[k] in Months && Months[MonthNames[k]] == k + 1
    ensures forall name | name in Months :: 1 <= Months[name] <= 12 && MonthNames[Months[name] - 1] == name
    ensures forall a, b | a in Months && b in Months && Months[a] == Months[b] :: a == b
  {
  }

  /** A calendar date, as `datetime.date` holds it. */
  datatype Date = Date(year: int, month: int, day: int)

  /** The exception `date_parse` raises. */
  datatype DateError =
    | IndexError  // fewer tokens than the index read
    | ValueError     // a number that `int` rejects, or a date `datetime.date` rejects
    | KeyError       // a month name missing from `Months`
    | OverflowError  // a `datetime.date` argument outside the C `int` range

  const MinYear := 1
  const MaxYear := 9999

  predicate IsLeapYear(year: int)
  {
    year % 4 == 0 && (year % 100 != 0 || year % 400 == 0)
  }

  function DaysInMonth(year: int, month: int): int
    requires 1 <= month <= 12
  {
    if month == 2 then (if IsLeapYear(year) then 29 else 28)
    else if month == 4 || month == 6 || month == 9 || month == 11 then 30
    else 31
  }

  /** The arguments `datetime.date(year, month, day)` accepts. */
  predicate IsValidDate(year: int, month: int, day: int)
  {
    && MinYear <= year <= MaxYear
    && 1 <= month <= 12
    && 1 <= day <= DaysInMonth(year, month)
  }

  /** The range of a C `int`, into which `datetime.date` converts its arguments first. */
  predicate InCInt(n: int)
  {
    -0x8000_0000 <= n < 0x8000_0000
  }

  /**
   * `datetime.date(year, month, day)`: the arguments are converted to C
   * `int`s (`OverflowError` outside that range), then range-checked
   * (`ValueError`).
   */
  function MakeDate(year: int, month: int, day: int): (r: Result<Date, DateError>)
    ensures r.Ok? <==> IsValidDate(year, month, day)
    ensures r.Ok? ==> r.value == Date(year, month, day)
    ensures r.Err? ==> (r.error == OverflowError <==> !(InCInt(year) && InCInt(month) && InCInt(day)))
    ensures r.Err? ==> r.error == OverflowError || r.error == ValueError
  {
    if !(InCInt(year) && InCInt(month) && InCInt(day)) then Err(OverflowError)
    else if IsValidDate(year, month, day) then Ok(Date(year, month, day))
    else Err(ValueError)
  }

  /**
   * `date_parse(raw_date)`: split on whitespace, read the day from token 1
   * with '.' stripped from both ends, the month from the lower-cased
   * token 2 and the year from token 3 (counting from 0), in that order.
   */
  function DateParse(raw: string): (r: Result<Date, DateError>)
    ensures r.Ok? ==> IsValidDate(r.value.year, r.value.month, r.value.day)
    ensures r.Ok? ==> && |Split(raw)| >= 4
                      && ParseInt(Strip(Split(raw)[1], '.')) == Some(r.value.day)
                      && Lower(Split(raw)[2]) in Months && Months[Lower(Split(raw)[2])] == r.value.month
                      && ParseInt(Split(raw)[3]) == Some(r.value.year)
    ensures |Split(raw)| < 2 ==> r == Err(IndexError)
    ensures |Split(raw)| >= 2 && ParseInt(Strip(Split(raw)[1], '.')).None? ==> r == Err(ValueError)
    ensures |Split(raw)| == 2 && ParseInt(Strip(Split(raw)[1], '.')).Some? ==> r == Err(IndexError)
    ensures |Split(raw)| >= 3 && ParseInt(Strip(Split(raw)[1], '.')).Some? && Lower(Split(raw)[2]) !in Months
            ==> r == Err(KeyError)
    ensures |Split(raw)| == 3 && ParseInt(Strip(Split(raw)[1], '.')).Some? && Lower(Split(raw)[2]) in Months
            ==> r == Err(IndexError)
    ensures |Split(raw)| >= 4 && ParseInt(Strip(Split(raw)[1], '.')).Some? && Lower(Split(raw)[2]) in Months
            && ParseInt(Split(raw)[3]).None?
            ==> r == Err(ValueError)
  {
    var tokens := Split(raw);
    if |tokens| < 2 then Err(IndexError)
    else match ParseInt(Strip(tokens[1], '.'))
      case None => Err(ValueError)
      case Some(day) =>
        if |tokens| < 3 then Err(IndexError)
        else
          var name := Lower(tokens[2]);
          if name !in Months then Err(KeyError)
          else if |tokens| < 4 then Err(IndexError)
          else match ParseInt(tokens[3])
            case None => Err(ValueError)
            case Some(year) => MakeDate(year, Months[name], day)
  }

  /** When all three fields read, `date_parse` is `datetime.date` of what they read. */
  lemma DateParseOfReadableTokens(raw: string, year: int, month: int, day: int)
    requires |Split(raw)| >= 4
    requires ParseInt(Strip(Split(raw)[1], '.')) == Some(day)
    requires Lower(Split(raw)[2]) in Months && Months[Lower(Split(raw)[2])] == month
    requires ParseInt(Split(raw)[3]) == Some(year)
    ensures DateParse(raw) == MakeDate(year, month, day)
  {
  }

  /** A day written as digits and a '.' is one token that `int(token.strip('.'))` reads back. */
  lemma DayTokenReads(day: nat)
    ensures IsToken(NatToString(day) + ".")
    ensures ParseInt(Strip(NatToString(day) + ".", '.')) == Some(day)
  {
    var digits := NatToString(day);
    var token := digits + ".";
    assert IsToken(token) by {
      forall k | 0 <= k < |token| ensures !IsSpace(token[k]) {
        if k < |digits| {
          assert token[k] == digits[k] && IsDigit(digits[k]);
        } else {
          assert token[k] == '.';
        }
      }
    }
    assert Strip(token, '.') == digits by {
      StripPadding([], digits, ".", '.');
      assert [] + digits + "." == token;
    }
    assert IntToString(day) == NatToString(day);
  }

  /** A year written as digits is one token that `int` reads back. */
  lemma YearTokenReads(year: nat)
    ensures IsToken(NatToString(year))
    ensures ParseInt(NatToString(year)) == Some(year)
  {
    assert IntToString(year) == NatToString(year);
  }

  /** The four tokens of a written date come back from `split()`. */
  lemma DateTokensSplit(weekday: string, monthToken: string, year: nat, day: nat)
    requires IsToken(weekday) && IsToken(monthToken)
    ensures var tokens := [weekday, NatToString(day) + ".", monthToken, NatToString(year)];
            Split(JoinSpace(tokens)) == tokens
  {
    var tokens := [weekday, NatToString(day) + ".", monthToken, NatToString(year)];
    assert IsToken(tokens[1]) by {
      DayTokenReads(day);
    }
    assert IsToken(tokens[3]) by {
      YearTokenReads(year);
    }
    assert forall k | 0 <= k < |tokens| :: IsToken(tokens[k]) by {
      assert IsToken(tokens[0]) && IsToken(tokens[2]) && |tokens| == 4;
    }
    SplitJoinSpace(tokens);
  }

  /**
   * `date_parse` reads back every valid date written as
   * "<weekday> <day>. <month> <year>", whatever the case of the month.
   */
  lemma DateParseRoundTrip(weekday: string, monthToken: string, year: int, month: int, day: int)
    requires IsValidDate(year, month, day)
    requires IsToken(weekday) && IsToken(monthToken)
    requires Lower(monthToken) == MonthNames[month - 1]
    ensures DateParse(JoinSpace([weekday, NatToString(day) + ".", monthToken, NatToString(year)]))
            == Ok(Date(year, month, day))
  {
    var raw := JoinSpace([weekday, NatToString(day) + ".", monthToken, NatToString(year)]);
    DayTokenReads(day);
    YearTokenReads(year);
    DateTokensSplit(weekday, monthToken, year, day);
    assert Lower(monthToken) in Months && Months[Lower(monthToken)] == month by {
      MonthsBijective();
      assert MonthNames[month - 1] in Months && Months[MonthNames[month - 1]] == month;
    }
    DateParseOfReadableTokens(raw, year, month, day);
  }

  // ---------------------------------------------------------------------
  // get_message_urls: the message window of a page and the listing URL

  /** Messages listed on one page of a topic. */
  const PageSize := 25

  /** The 1-based message positions a page lists, both ends included. */
  datatype Window = Window(start: int, end: int)

  /** `start = (page_number-1) * 25 + 1` and `end = page_number * 25`. */
  function PageWindow(page: int): (w: Window)
    ensures w.end - w.start + 1 == PageSize
    ensures page >= 1 ==> w.start >= 1
  {
    Window((page - 1) * PageSize + 1, page * PageSize)
  }

  /** The window of page `n + 1` starts right after the window of page `n`. */
  lemma WindowsAdjacent(n: int)
    ensures PageWindow(n).end + 1 == PageWindow(n + 1).start
  {
  }

  /** Windows of distinct pages never overlap. */
  lemma WindowsDisjoint(n: int, m: int)
    requires n != m
    ensures PageWindow(n).end < PageWindow(m).start || PageWindow(m).end < PageWindow(n).start
  {
  }

  /** Every message position 1, 2, ... lies in the window of some page from 1 on. */
  lemma WindowsCover(position: int)
    requires position >= 1
    ensures exists page :: page >= 1 && PageWindow(page).start <= position <= PageWindow(page).end
  {
    var page := (position - 1) / PageSize + 1;
    assert PageWindow(page).start <= position <= PageWindow(page).end;
  }

  /** `'/{}/discussion[{}-{}-false]'.format(topic_id, start, end)`. */
  function TopicPath(topicId: string, page: int): (path: string)
    ensures var head := "/" + topicId + "/discussion[";
            |head| + 7 < |path| && path[..|head|] == head && path[|path| - 7..] == "-false]"
    ensures exists a, b ::
              && IsCanonicalIntLiteral(a) && ParseInt(a) == Some((page - 1) * PageSize + 1)
              && IsCanonicalIntLiteral(b) && ParseInt(b) == Some(page * PageSize)
              && path == "/" + topicId + "/discussion[" + a + "-" + b + "-false]"
  {
    var w := PageWindow(page);
    var head := "/" + topicId + "/discussion[";
    WindowPath(head, w.start, w.end);
    head + (IntToString(w.start) + ("-" + IntToString(w.end) + "-false]"))
  }

  /** The path written for a window: a head, then `str(start)-str(end)-false]`. */
  lemma WindowPath(head: string, start: int, end: int)
    ensures var path := head + (IntToString(start) + ("-" + IntToString(end) + "-false]"));
            && |head| + 7 < |path| && path[..|head|] == head && path[|path| - 7..] == "-false]"
            && exists a, b ::
                 && IsCanonicalIntLiteral(a) && ParseInt(a) == Some(start)
                 && IsCanonicalIntLiteral(b) && ParseInt(b) == Some(end)
                 && path == head + a + "-" + b + "-false]"
  {
    var first := IntToString(start);
    var last := IntToString(end);
    var tail := "-" + last + "-false]";
    SuffixThrough(head, first + tail, 7);
    SuffixThrough(first, tail, 7);
    SuffixThrough("-" + last, "-false]", 7);
    IntToStringIsCanonical(start);
    IntToStringIsCanonical(end);
    assert head + (first + tail) == head + first + "-" + last + "-false]";
  }

  /** The last `n` characters of `x + y` are the last `n` of `y`. */
  lemma SuffixThrough(x: string, y: string, n: nat)
    requires n <= |y|
    ensures (x + y)[|x + y| - n..] == y[|y| - n..]
  {
  }

  /** Decimal digits end at the first '-', so the text before it is determined. */
  lemma DigitsBeforeDash(a: string, b: string, x: string, y: string)
    requires AllDigits(a) && AllDigits(b)
    requires x != [] && x[0] == '-' && y != [] && y[0] == '-'
    requires a + x == b + y
    ensures a == b
  {
    var n := if |a| < |b| then |a| else |b|;
    assert (a + x)[n] == (b + y)[n];
    assert |a| == |b|;
    assert a == (a + x)[..|a|] && b == (b + y)[..|b|];
  }

  /** The listing path of a page from 1 on determines the page. */
  lemma TopicPathIdentifiesPage(topicId: string, n: int, m: int)
    requires n >= 1 && m >= 1
    requires TopicPath(topicId, n) == TopicPath(topicId, m)
    ensures n == m
  {
    var head := "/" + topicId + "/discussion[";
    var a := IntToString(PageWindow(n).start);
    var b := IntToString(PageWindow(m).start);
    var x := "-" + IntToString(PageWindow(n).end) + "-false]";
    var y := "-" + IntToString(PageWindow(m).end) + "-false]";
    assert (head + (a + x))[|head|..] == a + x;
    assert (head + (b + y))[|head|..] == b + y;
    DigitsBeforeDash(a, b, x, y);
    IntToStringInjective(PageWindow(n).start, PageWindow(m).start);
  }

  const GoogleGroupBase := "https://groups.google.com/forum/"

  /** `GOOGLE_GROUP_URL.format(group_id)`, where `GOOGLE_GROUP_URL` is the base plus '#!forum/{}'. */
  function GroupUrl(groupId: string): string
  {
    GoogleGroupBase + "#!forum/" + groupId
  }

  /**
   * `GOOGLE_GROUP_URL.format(group_id).replace('#!forum', '#!topic')`: the
   * group URL with its "#!forum" turned into "#!topic"; `replace` also
   * rewrites any "#!forum" inside the group id.
   */
  function TopicUrl(groupId: string): (url: string)
    ensures url == GoogleGroupBase + "#!topic/" + Replace(groupId, "#!forum", "#!topic")
  {
    BaseHasNoHash();
    assert GroupUrl(groupId) == GoogleGroupBase + "#!forum" + "/" + groupId;
    ReplaceAfterHeadAndSeparator(GoogleGroupBase, "/", groupId, "#!forum", "#!topic");
    assert "#!topic" + "/" == "#!topic/";
    Replace(GroupUrl(groupId), "#!forum", "#!topic")
  }

  /** `replace` on a head free of `pat[0]`, then `pat`, then a separator free of `pat[0]`. */
  lemma ReplaceAfterHeadAndSeparator(head: string, sep: string, tail: string, pat: string, rep: string)
    requires pat != []
    requires forall k | 0 <= k < |head| :: head[k] != pat[0]
    requires forall k | 0 <= k < |sep| :: sep[k] != pat[0]
    ensures Replace(head + pat + sep + tail, pat, rep) == head + (rep + sep) + Replace(tail, pat, rep)
  {
    assert head + pat + sep + tail == head + pat + (sep + tail);
    ReplaceAfterHead(head, sep + tail, pat, rep);
    ReplaceSkipsPrefix(sep, tail, pat, rep);
    assert head + rep + (sep + Replace(tail, pat, rep)) == head + (rep + sep) + Replace(tail, pat, rep);
  }

  lemma BaseHasNoHash()
    ensures forall k | 0 <= k < |GoogleGroupBase| :: GoogleGroupBase[k] != '#'
  {
    assert '#' !in GoogleGroupBase;
    forall k | 0 <= k < |GoogleGroupBase| ensures GoogleGroupBase[k] != '#' {
      assert GoogleGroupBase[k] in GoogleGroupBase;
    }
  }

  /** For a group id without "#!forum" the topic URL is the plain "#!topic" URL. */
  lemma TopicUrlOfPlainGroup(groupId: string)
    requires !Contains(groupId, "#!forum")
    ensures TopicUrl(groupId) == GoogleGroupBase + "#!topic/" + groupId
  {
    ReplaceAbsent(groupId, "#!forum", "#!topic");
  }

  /**
   * `url = topic_url + quote(topic_path)`, the page the session loads;
   * `quote` is `urllib.request.quote`, taken as a parameter.
   */
  function ListingUrl(quote: string -> string, groupId: string, topicId: string, page: int): (url: string)
    ensures |TopicUrl(groupId)| <= |url| && url[..|TopicUrl(groupId)|] == TopicUrl(groupId)
    ensures url[|TopicUrl(groupId)|..] == quote(TopicPath(topicId, page))
  {
    TopicUrl(groupId) + quote(TopicPath(topicId, page))
  }

  /** With an injective `quote`, distinct pages from 1 on are loaded from distinct URLs. */
  lemma ListingUrlIdentifiesPage(quote: string -> string, groupId: string, topicId: string, n: int, m: int)
    requires forall a, b :: quote(a) == quote(b) ==> a == b
    requires n >= 1 && m >= 1
    requires ListingUrl(quote, groupId, topicId, n) == ListingUrl(quote, groupId, topicId, m)
    ensures n == m
  {
    var head := TopicUrl(groupId);
    var p, q := quote(TopicPath(topicId, n)), quote(TopicPath(topicId, m));
    assert (head + p)[|head|..] == p;
    assert (head + q)[|head|..] == q;
    TopicPathIdentifiesPage(topicId, n, m);
  }

  // ---------------------------------------------------------------------
  // get_message_ids and the raw message URLs

  const SnippetPrefix := "message_snippet_"

  /** `n = len('message_snippet_')`. */
  const SnippetPrefixLength := |SnippetPrefix|

  /**
   * `[message.get_attribute('id')[n:] for message in message_snippets]`:
   * the first 16 characters of every id are dropped, whatever they are;
   * an id shorter than that gives the empty string.
   */
  function MessageIds(snippetIds: seq<string>): (ids: seq<string>)
    ensures |ids| == |snippetIds|
    ensures forall k | 0 <= k < |ids| ::
              if |snippetIds[k]| >= 16 then snippetIds[k] == snippetIds[k][..16] + ids[k] else ids[k] == []
  {
    seq(|snippetIds|, k requires 0 <= k < |snippetIds| => SliceFrom(snippetIds[k], SnippetPrefixLength))
  }

  /** For ids that carry the snippet prefix, `get_message_ids` returns exactly what follows it, in order. */
  lemma MessageIdsStripPrefix(snippetIds: seq<string>, ids: seq<string>)
    requires |snippetIds| == |ids|
    requires forall k | 0 <= k < |ids| :: snippetIds[k] == SnippetPrefix + ids[k]
    ensures MessageIds(snippetIds) == ids
  {
    forall k | 0 <= k < |ids| ensures MessageIds(snippetIds)[k] == ids[k] {
      assert (SnippetPrefix + ids[k])[16..] == ids[k];
    }
  }

  const RawUrlPrefix := "https://groups.google.com/forum/message/raw?msg="

  /**
   * `RAW_URL.format(group_id, topic_id, message_id)`: the message id is the
   * part after the fixed head and "<group>/<topic>/", so it can be read back.
   */
  function RawMessageUrl(groupId: string, topicId: string, messageId: string): (url: string)
    ensures var head := RawUrlPrefix + groupId + "/" + topicId + "/";
            |head| <= |url| && url[..|head|] == head && url[|head|..] == messageId
  {
    RawUrlPrefix + groupId + "/" + topicId + "/" + messageId
  }

  /** The raw URLs `get_message_urls` returns: one per message id, in order. */
  function MessageUrls(groupId: string, topicId: string, messageIds: seq<string>): (urls: seq<string>)
    ensures |urls| == |messageIds|
    ensures forall k | 0 <= k < |urls| :: urls[k] == RawMessageUrl(groupId, topicId, messageIds[k])
  {
    seq(|messageIds|, k requires 0 <= k < |messageIds| => RawMessageUrl(groupId, topicId, messageIds[k]))
  }

  /** Distinct message ids of one topic give distinct raw URLs. */
  lemma MessageUrlsDistinct(groupId: string, topicId: string, messageIds: seq<string>)
    requires forall a, b | 0 <= a < b < |messageIds| :: messageIds[a] != messageIds[b]
    ensures var urls := MessageUrls(groupId, topicId, messageIds);
            forall a, b | 0 <= a < b < |urls| :: urls[a] != urls[b]
  {
    var urls := MessageUrls(groupId, topicId, messageIds);
    forall a, b | 0 <= a < b < |urls| ensures urls[a] != urls[b] {
      var head := RawUrlPrefix + groupId + "/" + topicId + "/";
      assert urls[a][|head|..] == messageIds[a] && urls[b][|head|..] == messageIds[b];
    }
  }

  /**
   * What `get_message_urls` returns once the page is loaded, given the `id`
   * attributes of the snippet elements the browser found on it.
   */
  function GetMessageUrls(groupId: string, topicId: string, snippetIds: seq<string>): (urls: seq<string>)
    ensures |urls| == |snippetIds|
    ensures forall k | 0 <= k < |urls| ::
              urls[k] == RawMessageUrl(groupId, topicId, SliceFrom(snippetIds[k], SnippetPrefixLength))
  {
    MessageUrls(groupId, topicId, MessageIds(snippetIds))
  }
}
