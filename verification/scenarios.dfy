/** Worked examples: the result of `FindAndShortenUrls` on small messages, proved,
    with ASCII whitespace standing in for `\s`. */
module Scenarios {
  import opened Wrappers
  import opened TextReplace
  import opened UrlPattern
  import opened UrlShortener

  predicate AsciiSpace(c: char) {
    c == ' ' || c == '\t' || c == '\n' || c == '\r' || c == '\U{B}' || c == '\U{C}'
  }

  const Sample: string := "check http://example.com/test out"
  const Short: string := "https://trimd.cc/x1"

  lemma OccursAtChars(text: string, i: nat, p: string)
    ensures |p| >= 2 && OccursAt(text, p, i) ==> text[i] == p[0] && text[i + 1] == p[1]
  {
  }

  /** Text in which no `h` is followed by `t` and no `w` by `w` holds no URL. */
  lemma NoPrefixNoCandidates(isSpace: char -> bool, text: string)
    requires forall i :: 0 <= i < |text| - 1 ==> !(text[i] == 'h' && text[i + 1] == 't')
    requires forall i :: 0 <= i < |text| - 1 ==> !(text[i] == 'w' && text[i + 1] == 'w')
    ensures Candidates(isSpace, text) == {}
  {
    forall s: nat, e: nat ensures !IsUrlAt(isSpace, text, s, e) {
      OccursAtChars(text, s, HttpsPrefix);
      OccursAtChars(text, s, HttpPrefix);
      OccursAtChars(text, s, WwwPrefix);
    }
    NoCandidatesIff(isSpace, text);
  }

  lemma SampleChars()
    ensures Sample[6] == 'h' && Sample[7] == 't' && Sample[8] == 't' && Sample[9] == 'p'
    ensures Sample[10] == ':' && Sample[11] == '/' && Sample[12] == '/'
    ensures Sample[0] == 'c' && Sample[1] == 'h' && Sample[2] == 'e'
    ensures Sample[3] == 'c' && Sample[4] == 'k' && Sample[5] == ' '
  {
  }

  lemma SampleParts()
    ensures Sample[..6] == "check " && Sample[29..] == " out"
  {
  }

  lemma SampleTail()
    ensures Scan(AsciiSpace, Sample, 29) == []
  {
  }

  lemma SamplePrefix()
    ensures OccursAt(Sample, HttpPrefix, 6)
  {
    SampleChars();
    assert Sample[6..13] == HttpPrefix;
  }

  lemma SampleRun()
    ensures RunEnd(AsciiSpace, Sample, 13) == 29
  {
    assert IsStop(AsciiSpace, Sample[29]);
    assert forall k :: 13 <= k < 29 ==> !IsStop(AsciiSpace, Sample[k]);
    RunEndUnique(AsciiSpace, Sample, 13, 29);
  }

  lemma SampleMatch()
    ensures MatchAt(AsciiSpace, Sample, 6) == Some(29)
  {
    SamplePrefix();
    SampleRun();
    assert !IsStop(AsciiSpace, Sample[13]);
    PrefixesExclusive(Sample, 6);
  }

  lemma SampleHeadNoMatch(i: nat)
    requires i < 6
    ensures MatchAt(AsciiSpace, Sample, i) == None
  {
    SampleChars();
    OccursAtChars(Sample, i, HttpsPrefix);
    OccursAtChars(Sample, i, HttpPrefix);
    OccursAtChars(Sample, i, WwwPrefix);
  }

  lemma SampleScan()
    ensures Scan(AsciiSpace, Sample, 0) == [Span(6, 29)]
  {
    SampleTail();
    SampleMatch();
    var s := [Span(6, 29)];
    assert Scan(AsciiSpace, Sample, 6) == s;
    SampleHeadNoMatch(5);
    assert Scan(AsciiSpace, Sample, 5) == s;
    SampleHeadNoMatch(4);
    assert Scan(AsciiSpace, Sample, 4) == s;
    SampleHeadNoMatch(3);
    assert Scan(AsciiSpace, Sample, 3) == s;
    SampleHeadNoMatch(2);
    assert Scan(AsciiSpace, Sample, 2) == s;
    SampleHeadNoMatch(1);
    assert Scan(AsciiSpace, Sample, 1) == s;
    SampleHeadNoMatch(0);
    assert Scan(AsciiSpace, Sample, 0) == s;
  }

  lemma SampleCandidates()
    ensures Candidates(AsciiSpace, Sample) == {Sample[6..29]}
  {
    SampleScan();
    assert FindAll(AsciiSpace, Sample) == [Sample[6..29]];
  }

  lemma SampleUrl()
    ensures Sample[6..29] == "http://example.com/test"
  {
    assert forall k :: 0 <= k < 23 ==> Sample[6..29][k] == Sample[6 + k];
  }

  lemma SampleFirstOccurrence(u: string)
    requires u == Sample[6..29]
    ensures OccursAt(Sample, u, 6)
    ensures forall j :: 0 <= j < 6 ==> !OccursAt(Sample, u, j)
  {
    SampleChars();
    assert u[0] == 'h' && u[1] == 't';
    forall j | 0 <= j < 6 ensures !OccursAt(Sample, u, j) {
      OccursAtChars(Sample, j, u);
    }
  }

  lemma SampleReplaced(u: string)
    requires u == Sample[6..29]
    ensures Replace(Sample, u, Short) == "check " + Short + " out"
  {
    SampleFirstOccurrence(u);
    ReplaceAtLeftmost(Sample, u, Short, 6);
    assert |Sample[29..]| < |u|;
    ReplaceAbsent(Sample[29..], u, Short);
    SampleParts();
  }

  /** A message with one link whose shortening succeeds: the link is replaced
      and the rest of the message is kept. */
  method RewriteSample() returns (newText: string, calls: seq<string>)
    ensures newText == "check " + Short + " out"
    ensures calls == ["http://example.com/test"]
  {
    var shorten: string -> Option<string> := u => if u == "http://example.com/test" then Some(Short) else None;
    var u := Sample[6..29];
    SampleCandidates();
    SampleUrl();
    assert shorten(u) == Some(Short);
    assert OnlyOneShortened(AsciiSpace, shorten, Sample, u);
    var table;
    newText, table, calls := FindAndShortenUrls(AsciiSpace, shorten, Sample, [u]);
    SampleReplaced(u);
  }

  const NoLinks: string := "no links here"

  lemma NoLinksHasNoCandidates()
    ensures Candidates(AsciiSpace, NoLinks) == {}
  {
    assert forall i :: 0 <= i < |NoLinks| ==> NoLinks[i] != 'w' && (NoLinks[i] == 'h' ==> i == 9);
    assert NoLinks[10] == 'e';
    NoPrefixNoCandidates(AsciiSpace, NoLinks);
  }

  /** A message without links comes back unchanged and nothing is sent to
      the shortener, even one that would succeed. */
  method RewriteNoLinks() returns (newText: string, calls: seq<string>)
    ensures newText == "no links here"
    ensures calls == []
  {
    var shorten: string -> Option<string> := u => Some("https://trimd.cc/x2");
    NoLinksHasNoCandidates();
    var table;
    newText, table, calls := FindAndShortenUrls(AsciiSpace, shorten, NoLinks, []);
  }
}
