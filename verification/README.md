# URL extraction and rewriting engine of the trimd bot, in Dafny

This project models `find_and_shorten_urls` and the success rule of `shorten_url`
from `url_shortener.py`. The bot uses them to rewrite chat messages: it finds
every link in a message, asks the Trimd service for a short link once per
distinct URL, and substitutes the results back into the text.

The model has three parts:

- **Extract** (`UrlPattern`). This is `set(re.findall(r'https?://[^\s<>"]+|www\.[^\s<>"]+', text))`
  written as a recursive scanner over `seq<char>`. At each index it tries
  `https://`, then `http://` (the `s?` backtracked to empty), then `www.`. A
  prefix must be followed by a greedy, non-empty run of characters that are not
  whitespace, `<`, `>` or `"`. On a match the scan resumes after it. Otherwise
  it moves on by one character. Whitespace (`\s`) is the parameter `isSpace`.
  The scanner is proved equal to an independent definition of a greedy match
  (`IsUrlAt`), in both directions.
- **Shorten** (`UrlShortener.ShortenEach`, `TrimdApi`). The loop calls the
  shortener once per URL and records either the truthy result or the URL
  itself. The shortener is a pure parameter `string -> Option<string>`. The
  acceptance rule of `shorten_url` is modelled over an abstract reply: either the
  request failed, or a status code arrived with a body that did or did not decode
  as JSON.
- **Substitute** (`TextReplace`, `UrlShortener.ReplaceEach`). Python's
  `str.replace` for a non-empty pattern is proved equal to `r.join(s.split(p))`:
  every non-overlapping occurrence, found left to right, is replaced. The fold
  over the table visits the table in the set's iteration order.

Python iterates a `set` in an unspecified order. The model takes that order as
the parameter `order`, which must list every candidate exactly once
(`IsEnumeration`). `OrderExists` shows that such an order exists for every
text. The same order drives the calls and the substitution, because a `dict`
iterates in insertion order.

`findall` tries the pattern at every index, so a match can begin inside a
word: in `xhttp://a` the candidate is `http://a`. The scanner does the same.

## Model

| member | source | states |
|---|---|---|
| `UrlPattern.RunEnd` | url_shortener.py:56 | `[^\s<>"]*` is greedy: the possibly empty run from `j` contains no whitespace, `<`, `>` or `"`, and it stops at the end of the text or right before such a character; `MatchWith` enforces the `+` by rejecting an empty run |
| `UrlPattern.RunEndUnique` | url_shortener.py:56 | the greedy run is the only maximal run, so a match's end is determined by its start |
| `UrlPattern.MatchAt` | url_shortener.py:56 | a match of the pattern at `i` is non-empty and lies inside the text, so the scan always makes progress |
| `UrlPattern.MatchWithIff` | url_shortener.py:56 | one alternative matches at `s` up to `e` exactly when `text[s..e]` is its literal prefix followed by a non-empty maximal run |
| `UrlPattern.PrefixesExclusive` | url_shortener.py:56 | at most one of `https://`, `http://` and `www.` starts at any index, so the order of the alternatives never changes the result |
| `UrlPattern.MatchAtIff` | url_shortener.py:56 | the scanner's step finds a match from `s` to `e` if and only if `text[s..e]` is a greedy URL match by the reference definition |
| `UrlPattern.FindAll` | url_shortener.py:62 | `findall` returns one string per reported span, and each is the text of a greedy URL match at that span by the reference definition, shaped like a URL |
| `UrlPattern.Candidates` | url_shortener.py:62 | every element of `set(findall(...))` is shaped like a URL: a scheme or `www.` followed by at least one non-separator character |
| `UrlPattern.Scan` | url_shortener.py:62 | every reported span starts at or after the scan position and ends inside the text, after its start |
| `UrlPattern.ScanSpansMatch` | url_shortener.py:62 | every span the scan reports is a match of the pattern at its start |
| `UrlPattern.ScanSpansOrdered` | url_shortener.py:62 | the matches come left to right and do not overlap |
| `UrlPattern.ScanGapsEmpty` | url_shortener.py:62 | no match starts in a gap between reported matches, so none is skipped |
| `UrlPattern.ScanIsLeftmost` | url_shortener.py:62 | the scan is `findall`: ordered, non-overlapping leftmost matches with nothing missed in between |
| `UrlPattern.ScanMatchesAreUrls` | url_shortener.py:56-62 | every reported match is maximal: it ends at the end of the text or right before whitespace, `<`, `>` or `"` |
| `UrlPattern.CandidatesAreUrls` | url_shortener.py:56-62 | every candidate occurs verbatim and contiguously in the text, starts with `http://`, `https://` or `www.`, has at least one character after that prefix, and has no separator after it |
| `UrlPattern.CandidateHasNoStop` | url_shortener.py:56 | when the whitespace test leaves the prefix characters alone, no character of a candidate is whitespace, `<`, `>` or `"` |
| `UrlPattern.NoCandidatesIff` | url_shortener.py:62 | the candidate set is empty exactly when no URL match exists anywhere in the text |
| `Seqs.Dedup` | url_shortener.py:62 | removing repetitions keeps exactly the same elements and leaves none twice |
| `Seqs.DistinctCount` | url_shortener.py:58-66 | in a list without repetitions, every element appears once, which is what iterating a set gives |
| `UrlShortener.OrderExists` | url_shortener.py:62-65 | some order visits each candidate once, so the pipeline's precondition can be met for every text |
| `UrlShortener.CandidatesNonEmpty` | url_shortener.py:56 | every candidate is longer than `www.`, so it is a valid non-empty pattern for `str.replace` |
| `UrlShortener.Chosen` | url_shortener.py:67-71 | the table entry differs from the URL only when the shortener returned that non-empty string; `None` or `""` keeps the URL |
| `UrlShortener.ShortenEach` | url_shortener.py:65-71 | the shortener is called with each URL in order, once per URL; the table's keys are exactly those URLs, and each maps to the chosen value |
| `TrimdApi.ShortenUrl` | url_shortener.py:23-44 | the reply yields the `shorturl` value if and only if the request succeeded, the status is not 4xx/5xx, the body is a JSON object, its `error` compares equal to 0 and `shorturl` is present; any other reply yields `None` |
| `TrimdApi.ErrorFieldEquality` | url_shortener.py:30 | because Python compares `0 == 0.0 == False`, `"error": false` and `0.0` count as success; `"0"`, `null` and a missing `error` do not |
| `TrimdApi.AsShortUrl` | url_shortener.py:31 | a `shorturl` value counts as a short link exactly when it is a JSON string, and then it is that string |
| `UrlShortener.TrimdChoice` | url_shortener.py:66-71 | with the Trimd service as the shortener, a URL changes only when the reply was accepted and its `shorturl` is a non-empty string, and then it becomes that string; a rejected reply, an empty string and an accepted non-string value keep the URL |
| `TextReplace.FindFrom` | url_shortener.py:77 | the search `str.replace` performs finds the leftmost occurrence at or after `i`, or reports that none exists |
| `TextReplace.Split` | url_shortener.py:77 | splitting on the pattern always yields at least one piece |
| `TextReplace.Replace` | url_shortener.py:77 | `s.replace(u, u) == s`, so an entry that maps a URL to itself leaves the text unchanged; what `replace` does in general is stated by `ReplaceIsJoinOfSplit` |
| `TextReplace.ReplaceAbsent` | url_shortener.py:77 | text that does not contain the pattern is returned unchanged |
| `TextReplace.ReplaceAtLeftmost` | url_shortener.py:77 | up to the leftmost occurrence the text is copied, then the replacement is emitted and the scan resumes after the occurrence |
| `TextReplace.ReplaceIsJoinOfSplit` | url_shortener.py:77 | `s.replace(p, r) == r.join(s.split(p))`: every non-overlapping occurrence, scanning left to right, is replaced and everything else is kept |
| `TextReplace.SplitPieces` | url_shortener.py:77 | the split pieces rebuild the text when joined with the pattern, and none of them contains the pattern |
| `UrlShortener.ReplaceEach` | url_shortener.py:74-77 | the substitution loop over the table; when every entry maps a URL to itself, it returns the text unchanged |
| `UrlShortener.ReplaceEachOnlyOne` | url_shortener.py:74-77 | if every entry but `u` maps to itself, the loop's result is the single `replace` of `u`, in any iteration order |
| `UrlShortener.FindAndShortenUrls` | url_shortener.py:46-79 | the table `url_map` has exactly the distinct candidates as keys, each mapped to its truthy short link or else to itself; the output is that table substituted in the set's iteration order. The shortener is called exactly once per distinct candidate, in that order. Text with no candidate is returned unchanged with no calls. If every shortening fails, the text is unchanged. If only one candidate `U` changes, the output is the text with every non-overlapping occurrence of `U` replaced, whatever the order |
| `Scenarios.NoPrefixNoCandidates` | url_shortener.py:56 | text where no `h` is followed by `t` and no `w` by `w` has no candidate |
| `Scenarios.RewriteSample` | url_shortener.py:46-79 | `"check http://example.com/test out"` with the link shortened to `https://trimd.cc/x1` becomes `"check https://trimd.cc/x1 out"` after one call |
| `Scenarios.RewriteNoLinks` | url_shortener.py:46-79 | `"no links here"` comes back unchanged and the shortener is never called |

## Left out

- The HTTP POST, the request headers, `raise_for_status`, `response.json()` and the exception classes are not modelled as code. Their outcome is the abstract `Reply`: a failed request, or a status code with a body that decoded as JSON or did not. A status of 400 to 599 is what `raise_for_status` rejects.
- The API key is only passed into the request headers, so it is folded into the shortener parameter.
- The `print` logging on failure is a side effect only.
- Python's Unicode definition of `\s` is the parameter `isSpace`. `CandidateHasNoStop` assumes only that it does not match the characters of the three prefixes, as Python's `\s` does not.
- JSON numbers are exact reals. A float literal that Python rounds to `0.0` (such as `1e-400`) is not distinguished from its exact value. `NaN` and `Infinity` have no real value; they must be represented by a non-zero `JNumber`, which gives the source's outcome, since neither compares equal to 0.
- `UrlShortener.TrimdChoice`: keeps the URL when the accepted `shorturl` value is not a string. `TrimdApi.ShortenUrl` returns the raw JSON value; when it is truthy but not a string, the source's `str.replace` at url_shortener.py:77 raises `TypeError` and `find_and_shorten_urls` fails. The model (`AsShortUrl`) treats such a value as a failed shortening instead, because the model has no exceptions.
- `UrlShortener.FindAndShortenUrls`: gives no order-independent result when two or more candidates change. For a given order the result is exactly the fold `ReplaceEach`, but which order Python uses is unspecified, and different orders give different texts. A replacement can also create a new occurrence of a later URL across the boundary of an earlier one. In `hwww.a http://q`, if `www.a` is shortened to `ttp://q` and replaced first, the text becomes `http://q http://q`, and then both copies of `http://q` are replaced; in the other order only one is. This holds even when no candidate is a substring of another and no replacement contains a candidate.
- `bot.py` is not part of this model: it is messaging-platform wiring, environment loading and polling. Its only logic is the comparison `new_text == original_text`.
