/** The URL extractor: `re.findall(r'https?://[^\s<>"]+|www\.[^\s<>"]+', text)`
    as a left-to-right scanner over the characters of the text. What counts as
    whitespace (`\s`) is the parameter `isSpace`. */
module UrlPattern {
  import opened Wrappers
  import opened TextReplace

  const HttpsPrefix: string := "https://"
  const HttpPrefix: string := "http://"
  const WwwPrefix: string := "www."

  /** A character outside the class `[^\s<>"]`: it ends a URL. */
  predicate IsStop(isSpace: char -> bool, c: char) {
    isSpace(c) || c == '<' || c == '>' || c == '"'
  }

  // ---------------------------------------------------------------------
  // Reference definition: what a match of the pattern is

  /** `text[s..e]` is the literal `p` followed by a non-empty, maximal run of
      characters none of which ends a URL. */
  ghost predicate UrlWithPrefix(isSpace: char -> bool, text: string, s: nat, e: nat, p: string) {
    && OccursAt(text, p, s)
    && s + |p| < e <= |text|
    && (forall k :: s + |p| <= k < e ==> !IsStop(isSpace, text[k]))
    && (e == |text| || IsStop(isSpace, text[e]))
  }

  /** A greedy match of one of the pattern's alternatives occupies `text[s..e]`. */
  ghost predicate IsUrlAt(isSpace: char -> bool, text: string, s: nat, e: nat) {
    || UrlWithPrefix(isSpace, text, s, e, HttpsPrefix)
    || UrlWithPrefix(isSpace, text, s, e, HttpPrefix)
    || UrlWithPrefix(isSpace, text, s, e, WwwPrefix)
  }

  /** A string shaped like a candidate: a prefix, then at least one character,
      none of which after the prefix ends a URL. */
  ghost predicate HasShape(isSpace: char -> bool, u: string, p: string) {
    && |p| < |u|
    && u[..|p|] == p
    && forall k :: |p| <= k < |u| ==> !IsStop(isSpace, u[k])
  }

  ghost predicate LooksLikeUrl(isSpace: char -> bool, u: string) {
    HasShape(isSpace, u, HttpsPrefix) || HasShape(isSpace, u, HttpPrefix) || HasShape(isSpace, u, WwwPrefix)
  }

  // ---------------------------------------------------------------------
  // The scanner

  /** `[^\s<>"]*` from `j`, greedily: the end of the run of non-stop characters. */
  function RunEnd(isSpace: char -> bool, text: string, j: nat): (e: nat)
    requires j <= |text|
    ensures j <= e <= |text|
    ensures forall k :: j <= k < e ==> !IsStop(isSpace, text[k])
    ensures e == |text| || IsStop(isSpace, text[e])
    decreases |text| - j
  {
    if j == |text| || IsStop(isSpace, text[j]) then j
    else RunEnd(isSpace, text, j + 1)
  }

  /** One alternative at `i`: the literal `p`, then `[^\s<>"]+`. The result is
      the end of the match. */
  function MatchWith(isSpace: char -> bool, text: string, i: nat, p: string): (m: Option<nat>)
    requires i <= |text|
  {
    if OccursAt(text, p, i) && i + |p| < |text| && !IsStop(isSpace, text[i + |p|])
    then Some(RunEnd(isSpace, text, i + |p|))
    else None
  }

  /** The pattern tried at `i`: `https://` (the greedy `s?`), then `http://`
      (`s?` backtracked to empty), then `www.`. */
  function MatchAt(isSpace: char -> bool, text: string, i: nat): (m: Option<nat>)
    requires i <= |text|
    ensures m.Some? ==> i < m.value <= |text|
  {
    var https := MatchWith(isSpace, text, i, HttpsPrefix);
    if https.Some? then https
    else
      var http := MatchWith(isSpace, text, i, HttpPrefix);
      if http.Some? then http
      else MatchWith(isSpace, text, i, WwwPrefix)
  }

  datatype Span = Span(start: nat, end: nat)

  /** No match of the pattern starts anywhere in `[lo, hi)`. */
  ghost predicate NoMatchIn(isSpace: char -> bool, text: string, lo: nat, hi: nat) {
    hi <= |text| && forall p :: lo <= p < hi ==> MatchAt(isSpace, text, p).None?
  }

  /** The stretch of text before span `k` (after span `k - 1`, or from `from`). */
  function GapStart(from: nat, spans: seq<Span>, k: nat): (g: nat)
    requires k <= |spans|
  {
    if k == 0 then from else spans[k - 1].end
  }

  function GapEnd(text: string, spans: seq<Span>, k: nat): (g: nat)
    requires k <= |spans|
  {
    if k == |spans| then |text| else spans[k].start
  }

  /** Every span is a match of the pattern starting at or after `from`. */
  ghost predicate SpansMatch(isSpace: char -> bool, text: string, from: nat, spans: seq<Span>) {
    forall k :: 0 <= k < |spans| ==>
      from <= spans[k].start < spans[k].end <= |text|
      && MatchAt(isSpace, text, spans[k].start) == Some(spans[k].end)
  }

  /** Each span ends at or before the next one starts. */
  ghost predicate SpansOrdered(spans: seq<Span>) {
    forall k :: 0 <= k < |spans| - 1 ==> spans[k].end <= spans[k + 1].start
  }

  /** No match starts in a gap between spans. */
  ghost predicate GapsEmpty(isSpace: char -> bool, text: string, from: nat, spans: seq<Span>) {
    forall k :: 0 <= k <= |spans| ==>
      GapStart(from, spans, k) <= GapEnd(text, spans, k)
      && NoMatchIn(isSpace, text, GapStart(from, spans, k), GapEnd(text, spans, k))
  }

  /** What `re.findall` returns from position `from` on: the matches in order,
      none overlapping the next, and no match starting in a gap between them. */
  ghost predicate IsScanFrom(isSpace: char -> bool, text: string, from: nat, spans: seq<Span>) {
    SpansMatch(isSpace, text, from, spans) && SpansOrdered(spans) && GapsEmpty(isSpace, text, from, spans)
  }

  /** Left-to-right scan: a match at `i` is taken and scanning resumes at its
      end; otherwise scanning moves one character on. */
  function Scan(isSpace: char -> bool, text: string, i: nat): (spans: seq<Span>)
    requires i <= |text|
    ensures forall k :: 0 <= k < |spans| ==> i <= spans[k].start < spans[k].end <= |text|
    decreases |text| - i
  {
    if i == |text| then []
    else match MatchAt(isSpace, text, i)
      case Some(e) => [Span(i, e)] + Scan(isSpace, text, e)
      case None => Scan(isSpace, text, i + 1)
  }

  lemma {:induction false} ScanSpansMatch(isSpace: char -> bool, text: string, i: nat)
    requires i <= |text|
    ensures SpansMatch(isSpace, text, i, Scan(isSpace, text, i))
    decreases |text| - i
  {
    var spans := Scan(isSpace, text, i);
    if i < |text| {
      match MatchAt(isSpace, text, i)
      case Some(e) =>
        var rest := Scan(isSpace, text, e);
        ScanSpansMatch(isSpace, text, e);
        assert spans == [Span(i, e)] + rest;
        forall k | 0 <= k < |spans|
          ensures MatchAt(isSpace, text, spans[k].start) == Some(spans[k].end)
        {
          if k > 0 { assert spans[k] == rest[k - 1]; }
        }
      case None =>
        ScanSpansMatch(isSpace, text, i + 1);
    }
  }

  lemma {:induction false} ScanSpansOrdered(isSpace: char -> bool, text: string, i: nat)
    requires i <= |text|
    ensures SpansOrdered(Scan(isSpace, text, i))
    decreases |text| - i
  {
    var spans := Scan(isSpace, text, i);
    if i < |text| {
      match MatchAt(isSpace, text, i)
      case Some(e) =>
        var rest := Scan(isSpace, text, e);
        ScanSpansOrdered(isSpace, text, e);
        assert spans == [Span(i, e)] + rest;
        forall k | 0 <= k < |spans| - 1
          ensures spans[k].end <= spans[k + 1].start
        {
          assert spans[k + 1] == rest[k];
          if k > 0 { assert spans[k] == rest[k - 1]; }
        }
      case None =>
        ScanSpansOrdered(isSpace, text, i + 1);
    }
  }

  lemma NoMatchExtend(isSpace: char -> bool, text: string, i: nat, hi: nat)
    requires i < hi <= |text|
    requires MatchAt(isSpace, text, i).None?
    requires NoMatchIn(isSpace, text, i + 1, hi)
    ensures NoMatchIn(isSpace, text, i, hi)
  {
  }

  /** A match taken at `i` leaves an empty first gap and shifts the later gaps. */
  lemma GapsAfterMatch(isSpace: char -> bool, text: string, i: nat, e: nat, rest: seq<Span>)
    requires i < e <= |text|
    requires GapsEmpty(isSpace, text, e, rest)
    ensures GapsEmpty(isSpace, text, i, [Span(i, e)] + rest)
  {
    var spans := [Span(i, e)] + rest;
    forall k | 0 <= k <= |spans|
      ensures GapStart(i, spans, k) <= GapEnd(text, spans, k)
      ensures NoMatchIn(isSpace, text, GapStart(i, spans, k), GapEnd(text, spans, k))
    {
      if k > 0 {
        assert GapStart(i, spans, k) == GapStart(e, rest, k - 1);
        assert GapEnd(text, spans, k) == GapEnd(text, rest, k - 1);
      }
    }
  }

  /** No match at `i` widens the first gap by one position. */
  lemma GapsAfterMiss(isSpace: char -> bool, text: string, i: nat, spans: seq<Span>)
    requires i < |text|
    requires MatchAt(isSpace, text, i).None?
    requires GapsEmpty(isSpace, text, i + 1, spans)
    ensures GapsEmpty(isSpace, text, i, spans)
  {
    forall k | 0 <= k <= |spans|
      ensures GapStart(i, spans, k) <= GapEnd(text, spans, k)
      ensures NoMatchIn(isSpace, text, GapStart(i, spans, k), GapEnd(text, spans, k))
    {
      if k == 0 {
        assert GapStart(i + 1, spans, 0) <= GapEnd(text, spans, 0);
        assert NoMatchIn(isSpace, text, i + 1, GapEnd(text, spans, 0));
        NoMatchExtend(isSpace, text, i, GapEnd(text, spans, 0));
      } else {
        assert GapStart(i, spans, k) == GapStart(i + 1, spans, k);
      }
    }
  }

  lemma {:induction false} ScanGapsEmpty(isSpace: char -> bool, text: string, i: nat)
    requires i <= |text|
    ensures GapsEmpty(isSpace, text, i, Scan(isSpace, text, i))
    decreases |text| - i
  {
    if i < |text| {
      match MatchAt(isSpace, text, i)
      case Some(e) =>
        ScanGapsEmpty(isSpace, text, e);
        GapsAfterMatch(isSpace, text, i, e, Scan(isSpace, text, e));
      case None =>
        ScanGapsEmpty(isSpace, text, i + 1);
        GapsAfterMiss(isSpace, text, i, Scan(isSpace, text, i + 1));
    }
  }

  /** The scan finds exactly the leftmost matches, one after another. */
  lemma ScanIsLeftmost(isSpace: char -> bool, text: string, i: nat)
    requires i <= |text|
    ensures IsScanFrom(isSpace, text, i, Scan(isSpace, text, i))
  {
    ScanSpansMatch(isSpace, text, i);
    ScanSpansOrdered(isSpace, text, i);
    ScanGapsEmpty(isSpace, text, i);
  }

  /** The matched substrings, in order: `url_pattern.findall(text)`. Each one
      is the text of a greedy URL match and has a candidate's shape. */
  function FindAll(isSpace: char -> bool, text: string): (urls: seq<string>)
    ensures |urls| == |Scan(isSpace, text, 0)|
    ensures forall k :: 0 <= k < |urls| ==>
      var span := Scan(isSpace, text, 0)[k];
      IsUrlAt(isSpace, text, span.start, span.end) && urls[k] == text[span.start..span.end]
    ensures forall k :: 0 <= k < |urls| ==> LooksLikeUrl(isSpace, urls[k])
  {
    var spans := Scan(isSpace, text, 0);
    ScanMatchesAreUrls(isSpace, text);
    var urls := seq(|spans|, k requires 0 <= k < |spans| => text[spans[k].start..spans[k].end]);
    assert forall k :: 0 <= k < |urls| ==> LooksLikeUrl(isSpace, urls[k]) by {
      forall k | 0 <= k < |urls| ensures LooksLikeUrl(isSpace, urls[k]) {
        UrlHasShape(isSpace, text, spans[k].start, spans[k].end);
      }
    }
    urls
  }

  /** `set(url_pattern.findall(text))`: the distinct candidates, each shaped
      like a URL. */
  function Candidates(isSpace: char -> bool, text: string): (cands: set<string>)
    ensures forall u :: u in cands ==> LooksLikeUrl(isSpace, u)
  {
    set u | u in FindAll(isSpace, text)
  }

  // ---------------------------------------------------------------------
  // The scanner agrees with the reference definition

  /** The greedy run is the only maximal one. */
  lemma RunEndUnique(isSpace: char -> bool, text: string, j: nat, e: nat)
    requires j <= e <= |text|
    requires forall k :: j <= k < e ==> !IsStop(isSpace, text[k])
    requires e == |text| || IsStop(isSpace, text[e])
    ensures RunEnd(isSpace, text, j) == e
  {
  }

  lemma MatchWithIff(isSpace: char -> bool, text: string, s: nat, e: nat, p: string)
    requires s <= |text|
    ensures MatchWith(isSpace, text, s, p) == Some(e) <==> UrlWithPrefix(isSpace, text, s, e, p)
  {
  }

  /** At most one of the three literals can start at a given index. */
  lemma PrefixesExclusive(text: string, s: nat)
    ensures !(OccursAt(text, HttpsPrefix, s) && OccursAt(text, HttpPrefix, s))
    ensures !(OccursAt(text, WwwPrefix, s) && OccursAt(text, HttpPrefix, s))
    ensures !(OccursAt(text, WwwPrefix, s) && OccursAt(text, HttpsPrefix, s))
  {
    if OccursAt(text, HttpPrefix, s) {
      assert text[s..s + |HttpPrefix|][0] == 'h' && text[s..s + |HttpPrefix|][4] == ':';
    }
    if OccursAt(text, HttpsPrefix, s) {
      assert text[s..s + |HttpsPrefix|][0] == 'h' && text[s..s + |HttpsPrefix|][4] == 's';
    }
    if OccursAt(text, WwwPrefix, s) {
      assert text[s..s + |WwwPrefix|][0] == 'w';
    }
  }

  /** The scanner's step is exactly the reference definition: a match of the
      pattern at `s` ends at `e` if and only if `text[s..e]` is a greedy match
      of one of its alternatives. */
  lemma MatchAtIff(isSpace: char -> bool, text: string, s: nat, e: nat)
    requires s <= |text|
    ensures MatchAt(isSpace, text, s) == Some(e) <==> IsUrlAt(isSpace, text, s, e)
  {
    MatchWithIff(isSpace, text, s, e, HttpsPrefix);
    MatchWithIff(isSpace, text, s, e, HttpPrefix);
    MatchWithIff(isSpace, text, s, e, WwwPrefix);
    PrefixesExclusive(text, s);
  }

  /** Each match the scan reports is a greedy, maximal URL: it ends at the end
      of the text or right before a whitespace, `<`, `>` or `"` character. */
  lemma ScanMatchesAreUrls(isSpace: char -> bool, text: string)
    ensures forall k :: 0 <= k < |Scan(isSpace, text, 0)| ==>
      IsUrlAt(isSpace, text, Scan(isSpace, text, 0)[k].start, Scan(isSpace, text, 0)[k].end)
    ensures SpansOrdered(Scan(isSpace, text, 0))
  {
    var spans := Scan(isSpace, text, 0);
    ScanIsLeftmost(isSpace, text, 0);
    forall k | 0 <= k < |spans| ensures IsUrlAt(isSpace, text, spans[k].start, spans[k].end) {
      MatchAtIff(isSpace, text, spans[k].start, spans[k].end);
    }
  }

  /** Every candidate occurs verbatim in the text as a greedy URL match, and
      has the shape the pattern demands. */
  lemma CandidatesAreUrls(isSpace: char -> bool, text: string, u: string)
    requires u in Candidates(isSpace, text)
    ensures exists s: nat, e: nat :: s < e <= |text| && text[s..e] == u && IsUrlAt(isSpace, text, s, e)
    ensures LooksLikeUrl(isSpace, u)
  {
    var spans := Scan(isSpace, text, 0);
    var urls := FindAll(isSpace, text);
    var k :| 0 <= k < |urls| && urls[k] == u;
    var s, e := spans[k].start, spans[k].end;
    assert text[s..e] == u && IsUrlAt(isSpace, text, s, e);
  }

  lemma UrlHasShape(isSpace: char -> bool, text: string, s: nat, e: nat)
    requires IsUrlAt(isSpace, text, s, e)
    ensures LooksLikeUrl(isSpace, text[s..e])
  {
  }

  /** The text has no candidate exactly when no URL match exists anywhere in it. */
  lemma NoCandidatesIff(isSpace: char -> bool, text: string)
    ensures Candidates(isSpace, text) == {} <==> forall s: nat, e: nat :: !IsUrlAt(isSpace, text, s, e)
  {
    var spans := Scan(isSpace, text, 0);
    ScanIsLeftmost(isSpace, text, 0);
    if |spans| > 0 {
      assert FindAll(isSpace, text)[0] in Candidates(isSpace, text);
      MatchAtIff(isSpace, text, spans[0].start, spans[0].end);
    } else {
      assert NoMatchIn(isSpace, text, GapStart(0, spans, 0), GapEnd(text, spans, 0));
      forall s: nat, e: nat ensures !IsUrlAt(isSpace, text, s, e) {
        if s <= |text| {
          MatchAtIff(isSpace, text, s, e);
          if s == |text| {
            assert !IsUrlAt(isSpace, text, s, e);
          }
        }
      }
    }
  }

  /** `\s` never matches a character of the three literals. */
  predicate PrefixCharsNotSpace(isSpace: char -> bool) {
    !isSpace('h') && !isSpace('t') && !isSpace('p') && !isSpace('s')
    && !isSpace(':') && !isSpace('/') && !isSpace('w') && !isSpace('.')
  }

  /** With a whitespace test that leaves the literals' characters alone (as
      Python's `\s` does), no candidate holds whitespace, `<`, `>` or `"`. */
  lemma CandidateHasNoStop(isSpace: char -> bool, text: string, u: string)
    requires PrefixCharsNotSpace(isSpace)
    requires u in Candidates(isSpace, text)
    ensures forall k :: 0 <= k < |u| ==> !IsStop(isSpace, u[k])
  {
    CandidatesAreUrls(isSpace, text, u);
    forall p | p in [HttpsPrefix, HttpPrefix, WwwPrefix] && HasShape(isSpace, u, p)
      ensures forall k :: 0 <= k < |p| ==> !IsStop(isSpace, u[k])
    {
      forall k | 0 <= k < |p| ensures !IsStop(isSpace, u[k]) {
        assert u[k] == u[..|p|][k] == p[k];
      }
    }
  }
}
