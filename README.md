# gg2yt / newschimp: a Dafny model of the message and URL logic

gg2yt reads the messages of a Google Group and collects the YouTube videos
they link to. Its `yt.py` holds the plain-text half of that job:

- `get_message_text` pulls the `text/plain` body out of a raw email. When
  the body is itself a message with double headers (it contains
  `X-Google-Groups:`), it looks inside that body again.
- `get_urls` yields every URL that `URL_RE` finds on a line not quoted
  with `>`, each URL once.
- `get_video_id` reads the video id from a `v=` query or a `youtu.be/`
  path with `VID_RE`.

The newschimp curator's `newschimp/social/gg.py` drives a browser over
the group's web pages. This model takes the parts of it that compute
rather than browse:

- the `MONTHS` table and `date_parse`;
- the 25-message window of a topic page, the listing path and URL built
  from it, and the topic URL's `#!forum` to `#!topic` rewrite;
- the message ids cut out of snippet element ids;
- the raw-message URLs built from those ids.

The project has five modules:

- `Wrappers` (`wrappers.dfy`) holds `Option` and `Result`.
- `PyStr` (`py_str.dfy`) models the Python `str` operations the code
  relies on: `splitlines`, `split`, `strip`, `lower`, `replace`,
  `startswith`, `in` and slicing.
- `PyInt` (`py_int.dfy`) models `int(str)` and `str(int)`.
- `Yt` (`yt.dfy`) models `yt.py`.
- `GoogleGroups` (`gg.py`'s model, in `gg.dfy`) models the named parts
  of `gg.py`.

The regular expressions are modelled by what they match:

- `URL_RE` is `http://` or `https://` followed by the longest non-empty
  run of characters from its class. That class is the letters, the
  digits, `!*(),` and the range from `$` to `_`. The class already
  contains `@.&+` and every character of a `%XX` escape, so that
  alternative of the pattern never lets a match go further.
- `findall` scans left to right and resumes after each match.
- `VID_RE.search` takes the leftmost position where either alternative
  matches.
- The `.` in `youtu.be/` is any character except a newline, as in
  Python's `re`.

`get_urls` and `get_message_text` loop, so they are methods:

- `Yt.GetUrls` builds the set line by line and then drains it.
- `Yt.GetMessageText` walks the parts and recurses on a double-header
  body.

Each method is proved against a function that specifies it. Everything
else is a function, and the properties are lemmas about those functions.

`yt.py` is Python 2 code: it reads `e.message` and imports
`print_function`. `splitlines` therefore breaks lines at `\n`, `\r` and
`\r\n` only. `gg.py` is Python 3 (`urllib.request`). Its `_` comes from a
fallback `gettext` translation, so the model takes `_` as the identity.

Only `youtu?be/` (any one character where the `?` stands) counts as a
short host: `http://short.host/xyz789` gives `None`
(`Yt.VideoIdOtherHostExample`), while `http://youtu.be/xyz789` gives
`xyz789` (`Yt.VideoIdShortHostExample`).

## Model

| member | source | states |
|---|---|---|
| Yt.MatchEnd | yt.py:30 | `URL_RE` matches at position i exactly when a maximal URL starts there: a scheme (`https://` tried before `http://`), then the longest non-empty run of class characters. The match found is that URL and no other. |
| Yt.MaximalUrlAtIff | yt.py:30 | A string is a maximal URL at i if and only if a scheme matches at i, a class character follows it, and the string runs from i to the end of the greedy run of class characters. |
| Yt.MatchAtStart | yt.py:30 | Any maximal URL at i starts with the scheme found at i, and it ends where the greedy run of class characters after that scheme ends. |
| Yt.SchemeOfUrl | yt.py:30 | A URL-shaped string standing at i starts with the scheme that `SchemeEnd` finds at i, and everything after that scheme is a class character. |
| Yt.MatchEndIsUrl | yt.py:30 | The scheme at i plus the greedy run after it, when that run is non-empty, is a maximal URL at i. |
| Yt.NoMatchOffH | yt.py:30 | No match starts at a character other than `h`. |
| Yt.FindAllFrom | yt.py:56 | Every string `findall` returns from position i is a maximal URL of the line starting at i or later. |
| Yt.FindAll | yt.py:56 | Every string that `URL_RE.findall(line)` returns is a maximal URL of that line. |
| Yt.FindAllLeftmost | yt.py:56 | `findall` reports the leftmost match first, then resumes scanning right after that match's end. |
| Yt.FindAllEmpty | yt.py:56 | `findall` returns nothing if and only if no match starts at any position. |
| Yt.FindAllExample | yt.py:30 | `findall("see http://a.example/x")` is exactly `["http://a.example/x"]`. |
| Yt.GetUrls | yt.py:52-59 | The URLs yielded are pairwise distinct, and a string is yielded if and only if it is in the set that `get_urls` builds. |
| Yt.UrlsOfLinesMembers | yt.py:53-56 | A URL is in the set built from some lines if and only if some unquoted line among them has it among its `findall` results. |
| Yt.UrlsOfLinesLineUrls | yt.py:53-56 | A URL is in the set built from some lines if and only if one of those lines adds it. |
| Yt.UrlsComeFromUnquotedLines | yt.py:54-56 | A URL is yielded for a text if and only if `findall` finds it on some line of `splitlines` that does not start with `>`. |
| Yt.UrlsAreMaximalMatches | yt.py:54-56 | Every yielded URL has the `URL_RE` shape and is a maximal match at some position of an unquoted line. |
| Yt.SplitLinesExample | yt.py:54 | `splitlines` splits the two-line example text into its two lines, without the line breaks. |
| Yt.UrlsOfExample | yt.py:52-59 | For `"see http://a.example/x\n> http://b.example/y\n"`, the result is exactly `{"http://a.example/x"}`: the quoted line adds nothing. |
| Yt.QueryGroup | yt.py:31 | The `query` group is a run with no `&` that starts right after `v=`, and it stops only at a `&` or the end of the URL. |
| Yt.PathGroup | yt.py:31 | The `path` group is the rest of the line after `youtu?be/`: it contains no newline, and it stops only at a newline or the end of the URL. |
| Yt.GroupValue | yt.py:64 | `query or path` is `None` exactly when the match is a `v=` whose query is empty. A value from the query is non-empty and has no `&`. A value from the path has no newline. |
| Yt.VideoIdFrom | yt.py:61-64 | Searching from position i, the result is `None` when no alternative matches at or after i. Any id returned is the group value of some match at or after i. |
| Yt.VideoId | yt.py:61-64 | `get_video_id` returns `None` when `VID_RE` matches nowhere in the URL. Any id it returns is the group value of some match in the URL. |
| Yt.QueryGroupIs | yt.py:31 | Those boundary facts fix the `query` group uniquely. |
| Yt.PathGroupIs | yt.py:31 | Those boundary facts fix the `path` group uniquely. |
| Yt.NoMatchBefore | yt.py:31 | Neither alternative of `VID_RE` matches before p when no `v` occurs before p and no `y` occurs at a point where `youtu?be/` could still fit. |
| Yt.VideoIdLeftmost | yt.py:61-64 | The search result is decided by the leftmost position where either alternative matches. |
| Yt.VideoIdNoMatch | yt.py:61-64 | With no match anywhere, `get_video_id` returns `None`. |
| Yt.VideoIdFromQuery | yt.py:62-64 | When `v=` is the leftmost match, the id is its maximal run of non-`&` characters. An empty run gives `None` (`'' or None`). The id never contains `&`. |
| Yt.VideoIdFromShortHost | yt.py:62-64 | When `youtu?be/` is the leftmost match, the id is the rest of the line, possibly empty (`None or ''`). |
| Yt.VideoIdQueryExample | yt.py:61-64 | `http://host/watch?v=abc123&x=1` gives `abc123`. |
| Yt.VideoIdEmptyQueryExample | yt.py:61-64 | `http://h/w?v=&f=youtu.be/abc` gives `None`: the empty `v=` matches first, although `youtu.be/` follows. |
| Yt.VideoIdShortHostExample | yt.py:61-64 | `http://youtu.be/xyz789` gives `xyz789`. |
| Yt.VideoIdOtherHostExample | yt.py:61-64 | `http://short.host/xyz789` gives `None`. |
| Yt.VideoIdNoPatternExample | yt.py:61-64 | `http://host/nopattern` gives `None`. |
| Yt.FirstTextPart | yt.py:36-38 | Returns the index of the first part whose content type is `text/plain`, or none exactly when no part has that type. |
| Yt.MessageText | yt.py:33-49 | A text that is returned contains no `X-Google-Groups:` marker and is shorter than the message. |
| Yt.GetMessageText | yt.py:33-49 | The loop over the parts, with its `break`, its `else: raise` and its recursion on a double-header body, computes `MessageText`. |
| Yt.MessageTextSelectsFirstPlainPart | yt.py:36-47 | There are three cases. Without a `text/plain` part the result is the `RuntimeError`. If the first such part has no marker, its payload is returned. If it has the marker, the result is `get_message_text` of that payload. |
| PyStr.SplitLines | yt.py:54 | No line that `splitlines` returns contains a line break. |
| PyStr.SplitLinesKeepsText | yt.py:54 | The lines joined back together are the text with its line breaks removed, so `splitlines` loses no other character. |
| PyStr.SplitLinesStep | yt.py:54 | A line without breaks, followed by `\n`, `\r\n` or `\r` (not followed by `\n`) and the rest, splits into that line and the lines of the rest. |
| PyStr.SplitJoinLines | yt.py:54 | `splitlines` gives back exactly the lines of a text in which each line is followed by `\n`, `\r\n` or `\r`. The last line may have no terminator if it is not empty. A `\r` terminator is never directly followed by `\n`. |
| PyStr.Split | newschimp/social/gg.py:57 | Every token that `split()` returns is non-empty and free of whitespace. |
| PyStr.SplitJoinSpace | newschimp/social/gg.py:57 | `split()` of whitespace-free tokens joined by single spaces gives those tokens back. |
| PyStr.SplitSkipsSpace | newschimp/social/gg.py:57 | Leading whitespace does not change what `split()` returns. |
| PyStr.SplitTokenStep | newschimp/social/gg.py:57 | A whitespace-free token followed by whitespace or by nothing comes off the front of `split()` as one token. |
| PyStr.SplitJoinGaps | newschimp/social/gg.py:57 | `split()` gives back exactly the tokens of a text made of whitespace-free tokens separated by non-empty runs of any whitespace, with any whitespace (or none) before the first and after the last. |
| PyStr.LStrip | newschimp/social/gg.py:58 | `strip('.')` on the left removes exactly the leading run of `.`: the result is a suffix, everything removed is `.`, and the result does not start with `.`. |
| PyStr.RStrip | newschimp/social/gg.py:58 | The same on the right: the result is a prefix, everything removed is `.`, and the result does not end with `.`. |
| PyStr.Strip | newschimp/social/gg.py:58 | `strip('.')` returns a core that sits in the string with only `.` before and after it, and the core neither starts nor ends with `.`. |
| PyStr.StripIsPadded | newschimp/social/gg.py:58 | The core that `strip` keeps starts where the left strip stopped, with only the stripped character around it. |
| PyStr.PaddingUnique | newschimp/social/gg.py:58 | Two cores of one string padded by the same character, neither starting nor ending with it (one non-empty), are equal, so `strip`'s result is the only such core. |
| PyStr.StripPadding | newschimp/social/gg.py:58 | `strip` of a core padded on both sides by the stripped character gives back that core, provided the core neither starts nor ends with the character. |
| PyStr.Lower | newschimp/social/gg.py:59 | `lower()` keeps the length of the string. |
| PyStr.Replace | newschimp/social/gg.py:109 | `replace` with a replacement as long as the pattern keeps the length of the string. |
| PyStr.ReplaceAbsent | newschimp/social/gg.py:109 | `replace` changes nothing when the pattern does not occur. |
| PyStr.ReplaceSkipsPrefix | newschimp/social/gg.py:109 | `replace` leaves a prefix without the pattern's first character untouched and works on the rest. |
| PyStr.ReplaceNoMatchHere | newschimp/social/gg.py:109 | Where the string does not start with the pattern's first character, `replace` keeps that character and goes on with the rest. |
| PyStr.ReplaceAtFront | newschimp/social/gg.py:109 | An occurrence at the front is replaced, and the scan resumes after it. |
| PyStr.ReplaceAfterHead | newschimp/social/gg.py:109 | The first occurrence after a head without the pattern's first character is replaced, and the head is kept. |
| PyStr.SliceFrom | newschimp/social/gg.py:141 | `s[n:]` is what follows the first n characters, or empty when s is shorter than n. |
| PyInt.NatToString | newschimp/social/gg.py:112 | `str` of a natural number is a non-empty string of digits without a leading zero. |
| PyInt.IntToString | newschimp/social/gg.py:112 | `int(str(i)) == i` for every integer. `str(i)` starts with `-` exactly when i is negative, and its digits have no leading zero. |
| PyInt.ParseInt | newschimp/social/gg.py:58-60 | `int(s)` succeeds exactly on an optional sign followed by one or more ASCII digits. A negative result comes from a `-`, and a positive one never does. `ParseIntSignAndZeros` and `IntToStringOfCanonical` fix the value of every literal. |
| PyInt.DigitsValueLeadingZero | newschimp/social/gg.py:58-60 | A leading `0` does not change the value of a digit string. |
| PyInt.ParseIntSignAndZeros | newschimp/social/gg.py:58-60 | For a digit string d, `int(d)` is its decimal value. `int` gives the same value for `0d` and `+d`, gives its negation for `-d`, and gives the same as `-d` for `-0d`. |
| PyInt.ParseIntLeadingZeroExample | newschimp/social/gg.py:58 | `int("07") == 7`, so a day token `07.` reads as 7. |
| PyInt.DigitsValueOfNatToString | newschimp/social/gg.py:58-60 | The digits that `str` writes for a natural number read back as that number. |
| PyInt.DigitsValuePositive | newschimp/social/gg.py:58-60 | Digits that do not start with `0` have a positive value. |
| PyInt.NatToStringOfDigits | newschimp/social/gg.py:58-60 | `str` of the value of digits without a leading zero gives those digits back. |
| PyInt.IntToStringOfCanonical | newschimp/social/gg.py:58-60 | For a literal with no `+`, no leading zero and no `-0`, `str(int(s)) == s`. |
| PyInt.IntToStringInjective | newschimp/social/gg.py:112 | Distinct integers format to distinct strings. |
| PyInt.IntToStringIsCanonical | newschimp/social/gg.py:112 | `str(i)` has no `+`, no leading zero and no `-0`. |
| GoogleGroups.MonthsBijective | newschimp/social/gg.py:35-48 | `MONTHS` maps exactly twelve names one-to-one onto 1..12, listed in calendar order. |
| GoogleGroups.MakeDate | newschimp/social/gg.py:61 | `date(year, month, day)` succeeds if and only if the year is in 1..9999 and the day exists in that Gregorian month, and it returns that date. An argument outside the C `int` range raises `OverflowError`; any other invalid input raises `ValueError`. |
| GoogleGroups.DateParse | newschimp/social/gg.py:55-61 | A result is a valid date whose day is `int` of the second token with `.` stripped, whose month is the `MONTHS` entry of the lower-cased third token, and whose year is `int` of the fourth. Each failure is the one Python raises first: `IndexError` for a missing token, `ValueError` for an unreadable day or year, `KeyError` for an unknown month. |
| GoogleGroups.DateParseOfReadableTokens | newschimp/social/gg.py:55-61 | When day, month and year all read, the result is `date(year, month, day)`. |
| GoogleGroups.DayTokenReads | newschimp/social/gg.py:58 | A day written as `"<n>."` is one token, and `int(token.strip('.'))` gives back n. |
| GoogleGroups.YearTokenReads | newschimp/social/gg.py:60 | A year written in decimal is one token, and `int` gives it back. |
| GoogleGroups.DateTokensSplit | newschimp/social/gg.py:57 | A weekday, `"<day>."`, a month token and the year joined by spaces split back into those four tokens. |
| GoogleGroups.DateParseRoundTrip | newschimp/social/gg.py:55-61 | This is the Group's date format, `"<weekday> <day>. <Month> <year>"`, with the month name in any case. For every valid date, it parses back to that date. |
| GoogleGroups.PageWindow | newschimp/social/gg.py:110-111 | Each page covers exactly 25 positions, and from page 1 on they start at position 1 or later. |
| GoogleGroups.WindowsAdjacent | newschimp/social/gg.py:110-111 | Page n+1 starts right after page n ends. |
| GoogleGroups.WindowsDisjoint | newschimp/social/gg.py:110-111 | Distinct pages cover disjoint positions. |
| GoogleGroups.WindowsCover | newschimp/social/gg.py:110-111 | Every position from 1 on lies in the window of some page from 1 on. |
| GoogleGroups.TopicPath | newschimp/social/gg.py:110-112 | The topic path is `/<topic>/discussion[` + a + `-` + b + `-false]`. Here a and b are literals as `str` writes them, a reads as the window start `(page-1)*25+1`, and b reads as the window end `page*25`. |
| GoogleGroups.WindowPath | newschimp/social/gg.py:112 | After any head, `str(start)-str(end)-false]` consists of literals reading as start and end, joined by `-` and followed by `-false]`. |
| GoogleGroups.TopicPathIdentifiesPage | newschimp/social/gg.py:110-112 | For pages from 1 on, distinct pages give distinct topic paths. |
| GoogleGroups.TopicUrl | newschimp/social/gg.py:109 | The topic URL is the base, then `#!topic/`, then the group id, in which `replace` also rewrites any `#!forum`. |
| GoogleGroups.ReplaceAfterHeadAndSeparator | newschimp/social/gg.py:109 | `replace` keeps a head free of the pattern's first character, rewrites the pattern right after it, keeps a separator also free of that character, and goes on with the rest. |
| GoogleGroups.TopicUrlOfPlainGroup | newschimp/social/gg.py:109 | For a group id without `#!forum`, the topic URL is the base, then `#!topic/`, then the id. |
| GoogleGroups.ListingUrl | newschimp/social/gg.py:109-113 | The listing URL starts with the topic URL, and the rest of it is `quote` of the topic path. |
| GoogleGroups.ListingUrlIdentifiesPage | newschimp/social/gg.py:109-113 | With an injective `quote`, distinct pages from 1 on load distinct URLs. |
| GoogleGroups.MessageIds | newschimp/social/gg.py:139-142 | There is one id per snippet. Each id is its element id with the first `len('message_snippet_')` = 16 characters cut off, or empty when the element id is shorter. |
| GoogleGroups.MessageIdsStripPrefix | newschimp/social/gg.py:139-142 | Element ids of the form `message_snippet_<id>` give back exactly those ids. |
| GoogleGroups.RawMessageUrl | newschimp/social/gg.py:120-123 | A raw-message URL is the fixed `raw?msg=` prefix, then `<group>/<topic>/`, then the message id, which can be read back from it. |
| GoogleGroups.MessageUrls | newschimp/social/gg.py:122-126 | There is one raw-message URL per message id, in the order of the ids. |
| GoogleGroups.MessageUrlsDistinct | newschimp/social/gg.py:120-126 | Distinct message ids give distinct raw-message URLs. |
| GoogleGroups.GetMessageUrls | newschimp/social/gg.py:119-128 | There is one URL per snippet. URL k is the raw-message URL of the id cut out of snippet k. |

## Left out

- Browser sessions are not modelled. This covers Selenium and PhantomJS, `WebSession.__init__`, `login`, `click_adult_warning_if_appeared` and `close`, and the element look-ups in `get_message_ids`. They are I/O against a live page. The model starts from the list of snippet element ids.
- `browser.get(url)` is left out in `get_message_urls`, as is the page it loads. The URL it loads is modelled by `GoogleGroups.ListingUrl`.
- `urllib.request.quote` is a function parameter of `GoogleGroups.ListingUrl`. Its percent-encoding is not modelled, and injectivity is assumed only where `GoogleGroups.ListingUrlIdentifiesPage` requires it.
- The parsing done by `email.message_from_string` and `msg.walk()` is not modelled. These are a parser parameter that yields the parts in walk order.
- Yt.MessageText: proved only for parsers whose `text/plain` payloads are shorter than the message they came from (`ParserShrinks`). With any other parser, the source's recursion may never end, and Python stops it at its recursion limit. Python's own `email` parser is such a parser. Take `"hi\nX-Google-Groups: x"`, whose first line is not a header: the parser keeps the whole message as the body of a `text/plain` part. The payload is then the message itself, and `get_message_text` (yt.py:41-42) recurses on the same string until the limit.
- The YouTube client is I/O against an external service: `get_yt_client` and `add_video_to_playlist`, through the gdata library.
- Also not modelled: `configure_logger` and all logging, the `click` command line, the `gettext` translation (taken as the identity) and the scripts' `__main__` blocks.
- Yt.GetUrls: a Python `set` yields its elements in an order that depends on hashing. The model yields them in an unspecified order and states only which URLs come out, each once.
- PyStr.SplitLines: follows Python 2 `str.splitlines`, which breaks only at `\n`, `\r` and `\r\n`. It does not follow Python 3's wider set of line boundaries.
- PyInt.ParseInt: accepts an optional sign and ASCII digits only. Python 3's `int` also accepts `_` between digits, non-ASCII decimal digits and surrounding whitespace. No token produced by `split()` has surrounding whitespace. Python 3.11 and later also refuse literals of more than 4300 digits with `ValueError`; the model reads literals of any length.
- PyStr.Lower: maps only `A`-`Z` and states only that the length is kept. Python's Unicode case mapping is not modelled. Python's `lower()` does not always keep the length: `'İ'` (U+0130) lowers to `'i'` followed by U+0307. The Kelvin sign lowers to the ASCII letter `k`, and `'İ'` lowers to a string that contains the ASCII letter `i`. No month name contains `k`, and U+0307 is in no key of `MONTHS`, so the lookup comes out the same.
