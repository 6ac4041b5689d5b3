/** `find_and_shorten_urls`: extract the distinct candidates, shorten each once,
    then substitute. The shortening service is the pure parameter `shorten`;
    the order in which Python iterates the candidate set (and the dictionary
    built from it) is the parameter `order`. */
module UrlShortener {
  import opened Wrappers
  import opened Seqs
  import opened TextReplace
  import opened UrlPattern
  import opened TrimdApi

  /** The table entry for `url`: a truthy (non-empty) shortened string, else the
      URL itself. */
  function Chosen(result: Option<string>, url: string): (r: string)
    ensures r != url ==> result == Some(r)
    ensures result.None? || result == Some([]) ==> r == url
    ensures result.Some? && result.value != [] ==> r == result.value
  {
    match result
    case Some(s) => if s != [] then s else url
    case None => url
  }

  /** The table entry when the shortener is the Trimd service: the URL changes
      only when the service accepted the request and its `shorturl` is a
      non-empty string; every failed reply keeps the URL. */
  function TrimdChoice(reply: Reply, url: string): (r: string)
    ensures r != url ==> ShortenUrl(reply) == Some(JString(r)) && r != []
    ensures ShortenUrl(reply).None? ==> r == url
    ensures ShortenUrl(reply).Some? && ShortenUrl(reply).value.JString? && ShortenUrl(reply).value.s != [] ==>
      r == ShortenUrl(reply).value.s
    ensures ShortenUrl(reply).Some? && !ShortenUrl(reply).value.JString? ==> r == url
  {
    Chosen(AsShortUrl(ShortenUrl(reply)), url)
  }

  /** The loop that calls the shortener once per URL, in the given order, and
      records each outcome in the table. */
  method ShortenEach(urls: seq<string>, shorten: string -> Option<string>)
    returns (table: map<string, string>, calls: seq<string>)
    ensures calls == urls
    ensures forall u :: u in table <==> u in urls
    ensures forall u :: u in table ==> table[u] == Chosen(shorten(u), u)
  {
    table := map[];
    calls := [];
    var i := 0;
    while i < |urls|
      invariant 0 <= i <= |urls|
      invariant calls == urls[..i]
      invariant forall u :: u in table <==> u in urls[..i]
      invariant forall u :: u in table ==> table[u] == Chosen(shorten(u), u)
    {
      var url := urls[i];
      var result := shorten(url);
      calls := calls + [url];
      table := table[url := Chosen(result, url)];
      assert urls[..i + 1] == urls[..i] + [url];
      i := i + 1;
    }
    assert urls[..i] == urls;
  }

  /** The substitution loop: `new_text = new_text.replace(long, short)` for each
      table entry, in the table's iteration order. When every entry maps a URL
      to itself the text comes back unchanged. */
  function ReplaceEach(text: string, order: seq<string>, table: map<string, string>): (r: string)
    requires forall u :: u in order ==> u in table && u != []
    ensures (forall u :: u in order ==> table[u] == u) ==> r == text
    decreases |order|
  {
    if order == [] then text
    else
      assert order[0] in order;
      assert forall u :: u in order[1..] ==> u in order;
      ReplaceEach(Replace(text, order[0], table[order[0]]), order[1..], table)
  }

  /** Entries that map a URL to itself drop out: if every entry but `u` does,
      the result is the single replacement of `u`, in whichever order the
      entries are visited. */
  lemma {:induction false} ReplaceEachOnlyOne(text: string, order: seq<string>, table: map<string, string>, u: string)
    requires forall v :: v in order ==> v in table && v != []
    requires Distinct(order) && u in order
    requires forall v :: v in order && v != u ==> table[v] == v
    ensures ReplaceEach(text, order, table) == Replace(text, u, table[u])
    decreases |order|
  {
    var head := order[0];
    assert head in order;
    assert forall v :: v in order[1..] ==> v in order;
    assert Distinct(order[1..]) by {
      forall i, j | 0 <= i < j < |order[1..]| ensures order[1..][i] != order[1..][j] {
        assert order[1..][i] == order[i + 1] && order[1..][j] == order[j + 1];
      }
    }
    if head == u {
      assert u !in order[1..] by {
        forall k | 0 <= k < |order[1..]| ensures order[1..][k] != u {
          assert order[1..][k] == order[k + 1];
        }
      }
      assert forall v :: v in order[1..] ==> table[v] == v;
    } else {
      ReplaceEachOnlyOne(text, order[1..], table, u);
    }
  }

  /** Every candidate is at least as long as `www.` plus one character, so it
      is a valid pattern for `str.replace`. */
  lemma CandidatesNonEmpty(isSpace: char -> bool, text: string)
    ensures forall u :: u in Candidates(isSpace, text) ==> |u| > |WwwPrefix|
  {
    forall u | u in Candidates(isSpace, text) ensures |u| > |WwwPrefix| {
      CandidatesAreUrls(isSpace, text, u);
    }
  }

  /** A valid iteration order exists for every text. */
  lemma OrderExists(isSpace: char -> bool, text: string)
    ensures IsEnumeration(Dedup(FindAll(isSpace, text)), Candidates(isSpace, text))
  {
  }

  /** `u` is a candidate and every other candidate keeps its original URL. */
  ghost predicate OnlyOneShortened(isSpace: char -> bool, shorten: string -> Option<string>, text: string, u: string) {
    && u in Candidates(isSpace, text)
    && forall v :: v in Candidates(isSpace, text) && v != u ==> Chosen(shorten(v), v) == v
  }

  /** `find_and_shorten_urls(text)`, with the shortener and the set's iteration
      order as parameters. Returns the rewritten text, the table `url_map` it
      substituted from, and the URLs the shortener was called with, in call
      order. */
  method FindAndShortenUrls(isSpace: char -> bool, shorten: string -> Option<string>, text: string, order: seq<string>)
    returns (newText: string, table: map<string, string>, calls: seq<string>)
    requires IsEnumeration(order, Candidates(isSpace, text))
    ensures forall u :: u in table <==> u in Candidates(isSpace, text)
    ensures forall u :: u in table ==> table[u] == Chosen(shorten(u), u)
    ensures newText == ReplaceEach(text, order, table)
    ensures calls == order
    ensures forall u :: Count(calls, u) == if u in Candidates(isSpace, text) then 1 else 0
    ensures Candidates(isSpace, text) == {} ==> newText == text && calls == []
    ensures (forall u :: u in Candidates(isSpace, text) ==> Chosen(shorten(u), u) == u) ==> newText == text
    ensures forall u :: OnlyOneShortened(isSpace, shorten, text, u) ==>
      newText == Replace(text, u, Chosen(shorten(u), u))
  {
    table, calls := ShortenEach(order, shorten);
    CandidatesNonEmpty(isSpace, text);
    newText := ReplaceEach(text, order, table);
    forall u ensures Count(calls, u) == if u in Candidates(isSpace, text) then 1 else 0 {
      DistinctCount(calls, u);
    }
    forall u | OnlyOneShortened(isSpace, shorten, text, u)
      ensures newText == Replace(text, u, Chosen(shorten(u), u))
    {
      ReplaceEachOnlyOne(text, order, table, u);
    }
  }
}
