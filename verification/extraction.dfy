/** Content extraction, in the two variants the repository carries: the
    primary-plus-fallback extractor of utils/articleContentExtractor.py and
    the primary-only extractor of utils/trafilatura_articleContentExtractor.py
    (the one the web route uses). HTTP and both text extractors are
    parameters; their exceptions are folded into `None`. */
module Extraction {
  import opened Common

  /** The outcome of one `session.get(url)`: a response, or an exception
      (connection error, timeout, undecodable body). */
  datatype HttpOutcome = Response(status: int, body: string) | RequestFailed

  /** The external collaborators of one extraction run. `primary` is the
      boilerplate stripper run on fetched HTML (`None`: it returned nothing or
      raised); `secondary` downloads and parses a URL on its own (`None`: it
      raised). */
  datatype Web = Web(
    fetch: Url -> HttpOutcome,
    primary: string -> Option<string>,
    secondary: Url -> Option<string>)

  /** `fetch_url_async`: the body, or `None` when the request raised or
      `raise_for_status` rejected the status (400 and above). */
  function FetchPage(o: HttpOutcome): (r: Option<string>)
    ensures r.Some? <==> o.Response? && o.status < 400
    ensures r.Some? ==> r.value == o.body
  {
    match o
    case RequestFailed => None
    case Response(status, body) => if status >= 400 then None else Some(body)
  }

  /** Python truthiness of an optional string. */
  predicate Truthy(s: Option<string>) {
    s.Some? && s.value != ""
  }

  /** `extract_with_trafilatura` and `extract_content`: fetch, then run the
      primary extractor; an empty page or an empty extraction is a failure. */
  function ExtractPrimary(url: Url, web: Web): (r: Option<string>)
    ensures r.Some? ==> r.value != ""
    ensures r.None? <==>
      !Truthy(FetchPage(web.fetch(url))) || !Truthy(web.primary(FetchPage(web.fetch(url)).value))
    ensures r.Some? ==> r == web.primary(FetchPage(web.fetch(url)).value)
  {
    var page := FetchPage(web.fetch(url));
    if !Truthy(page) then None
    else
      var text := web.primary(page.value);
      if !Truthy(text) then None else text
  }

  /** `extract_with_newspaper`: the parsed text, `None` when it is empty or
      the library raised. */
  function ExtractSecondary(url: Url, web: Web): (r: Option<string>)
    ensures r.Some? ==> r.value != ""
    ensures r.None? <==> !Truthy(web.secondary(url))
  {
    var text := web.secondary(url);
    if Truthy(text) then text else None
  }

  /** `extract_content_with_fallback`: the primary result when it is truthy
      (the secondary is then never consulted), otherwise the secondary's. */
  function ExtractWithFallback(url: Url, web: Web): (r: Option<string>)
    ensures Truthy(ExtractPrimary(url, web)) ==> r == ExtractPrimary(url, web)
    ensures !Truthy(ExtractPrimary(url, web)) ==> r == ExtractSecondary(url, web)
    ensures r.None? <==> ExtractPrimary(url, web).None? && ExtractSecondary(url, web).None?
    ensures r.Some? ==> r.value != ""
  {
    var content := ExtractPrimary(url, web);
    if Truthy(content) then content else ExtractSecondary(url, web)
  }

  /** `extract_content_for_multiple_urls` with fallback: one task per URL,
      zipped back onto the URLs. The tasks never raise, so the
      `return_exceptions` branch never produces its `None`. */
  function ExtractAll(urls: seq<Url>, web: Web): (r: map<Url, Option<string>>)
    ensures r.Keys == set u | u in urls
    ensures forall u :: u in r ==> r[u] == ExtractWithFallback(u, web)
    ensures forall u :: u in r ==> (r[u].None? <==> ExtractPrimary(u, web).None? && ExtractSecondary(u, web).None?)
  {
    ZipToMap(urls, MapSeq(urls, u => ExtractWithFallback(u, web)))
  }

  // ------------------------------------------------------------- summaries

  /** The counts `extract_content_sync` logs. */
  datatype Summary = Summary(processed: nat, success: int, failed: nat)

  /** As written: `failed` counts the `None` values of the result dictionary,
      where duplicate URLs have collapsed into one key, while `success`
      subtracts that from the number of input URLs. */
  function SummaryAsWritten(urls: seq<Url>, results: map<Url, Option<string>>): (s: Summary)
    ensures s.processed == |urls|
    ensures s.success + s.failed == |urls|
    ensures results.Keys == (set u | u in urls) ==> s.failed == |FailedUrls(urls, results)|
    ensures results.Keys == (set u | u in urls) ==>
      s.failed <= FailedPositions(urls, results) && s.success >= SucceededPositions(urls, results)
  {
    var failed := |set u | u in results && results[u].None?|;
    ResultKeysAreUrls(urls, results);
    FailedUrlsAtMostPositions(urls, results);
    PositionsPartition(urls, results);
    Summary(|urls|, |urls| - failed, failed)
  }

  /** When the dictionary is keyed by the input URLs, its `None` values are
      exactly the failed input URLs. */
  lemma ResultKeysAreUrls(urls: seq<Url>, results: map<Url, Option<string>>)
    ensures results.Keys == (set u | u in urls) ==>
      (set u | u in results && results[u].None?) == FailedUrls(urls, results)
  {
  }

  /** The distinct input URLs whose extraction failed (or is missing). */
  function FailedUrls(urls: seq<Url>, results: map<Url, Option<string>>): set<Url> {
    set u | u in urls && (u !in results || results[u].None?)
  }

  lemma FailedUrlsSnoc(s: seq<Url>, x: Url, results: map<Url, Option<string>>)
    ensures FailedUrls(s + [x], results) ==
      FailedUrls(s, results) + (if x !in results || results[x].None? then {x} else {})
  {
  }

  /** Counting failures per distinct URL never gives more than counting them
      per position. */
  lemma {:induction false} FailedUrlsAtMostPositions(urls: seq<Url>, results: map<Url, Option<string>>)
    ensures |FailedUrls(urls, results)| <= FailedPositions(urls, results)
  {
    if |urls| > 0 {
      var u', x := urls[..|urls| - 1], urls[|urls| - 1];
      FailedUrlsAtMostPositions(u', results);
      assert urls == u' + [x];
      FailedUrlsSnoc(u', x, results);
    }
  }

  /** Without a URL listed twice, both ways of counting failures agree. */
  lemma {:induction false} FailedUrlsOfDistinct(urls: seq<Url>, results: map<Url, Option<string>>)
    requires forall i, j :: 0 <= i < j < |urls| ==> urls[i] != urls[j]
    ensures |FailedUrls(urls, results)| == FailedPositions(urls, results)
  {
    if |urls| > 0 {
      var u', x := urls[..|urls| - 1], urls[|urls| - 1];
      forall i, j | 0 <= i < j < |u'| ensures u'[i] != u'[j] {
        assert u'[i] == urls[i] && u'[j] == urls[j];
      }
      FailedUrlsOfDistinct(u', results);
      assert urls == u' + [x];
      FailedUrlsSnoc(u', x, results);
      assert x !in u' by {
        forall k | 0 <= k < |u'| ensures u'[k] != x {
          assert u'[k] == urls[k];
        }
      }
    }
  }

  /** Without repeated URLs the logged summary is the corrected one: the
      discrepancy needs a URL listed twice. */
  lemma SummariesAgreeWithoutRepeats(urls: seq<Url>, results: map<Url, Option<string>>)
    requires forall i, j :: 0 <= i < j < |urls| ==> urls[i] != urls[j]
    requires results.Keys == (set u | u in urls)
    ensures SummaryAsWritten(urls, results) == Summarize(urls, results)
  {
    FailedUrlsOfDistinct(urls, results);
  }

  /** The number of input positions whose URL maps to `None` (or is missing). */
  function FailedPositions(urls: seq<Url>, results: map<Url, Option<string>>): (n: nat)
    ensures n <= |urls|
  {
    if |urls| == 0 then 0
    else
      var u := urls[|urls| - 1];
      FailedPositions(urls[..|urls| - 1], results) + (if u !in results || results[u].None? then 1 else 0)
  }

  function SucceededPositions(urls: seq<Url>, results: map<Url, Option<string>>): (n: nat)
    ensures n <= |urls|
  {
    if |urls| == 0 then 0
    else
      var u := urls[|urls| - 1];
      SucceededPositions(urls[..|urls| - 1], results) + (if u in results && results[u].Some? then 1 else 0)
  }

  /** Corrected summary: both counts are taken over the input positions, so a
      duplicated failing URL is counted as failed every time it occurs. */
  function Summarize(urls: seq<Url>, results: map<Url, Option<string>>): (s: Summary)
    ensures s.processed == |urls|
    ensures s.success + s.failed == |urls|
    ensures s.success == SucceededPositions(urls, results)
    ensures s.failed == FailedPositions(urls, results)
  {
    PositionsPartition(urls, results);
    Summary(|urls|, |urls| - FailedPositions(urls, results), FailedPositions(urls, results))
  }

  lemma {:induction false} PositionsPartition(urls: seq<Url>, results: map<Url, Option<string>>)
    ensures SucceededPositions(urls, results) + FailedPositions(urls, results) == |urls|
  {
    if |urls| > 0 {
      PositionsPartition(urls[..|urls| - 1], results);
    }
  }

  /** With every URL failing, the corrected summary reports no success at all. */
  lemma {:induction false} AllFailingReportsNoSuccess(urls: seq<Url>, results: map<Url, Option<string>>)
    requires forall u :: u in results ==> results[u].None?
    ensures Summarize(urls, results).success == 0
  {
    if |urls| > 0 {
      AllFailingReportsNoSuccess(urls[..|urls| - 1], results);
    }
  }

  /** The discrepancy: one URL listed twice whose extraction fails is logged as
      one success and one failure, though nothing was extracted. */
  lemma SummaryAsWrittenCountsFailedDuplicateAsSuccess()
    ensures SummaryAsWritten(["u", "u"], map["u" := None]) == Summary(2, 1, 1)
    ensures Summarize(["u", "u"], map["u" := None]) == Summary(2, 0, 2)
  {
    var results: map<Url, Option<string>> := map["u" := None];
    assert (set u | u in results && results[u].None?) == {"u"};
    AllFailingReportsNoSuccess(["u", "u"], results);
  }

  // ------------------------------------------------------ primary-only run

  /** The keys of the task dictionary: the URLs that have left the
      aggregator, each once, in first-occurrence order. */
  function TaskKeys(urls: seq<Url>): (keys: seq<Url>)
    ensures forall u :: u in keys <==> u in urls && !IsAggregator(u)
    ensures forall i, j :: 0 <= i < j < |keys| ==> keys[i] != keys[j]
  {
    var kept := Filter(urls, u => !IsAggregator(u));
    var keys := DropDuplicatesBy(kept, (u: Url) => u);
    SubsequenceElements(keys, kept);
    forall u | u in urls && !IsAggregator(u) ensures u in keys {
      assert u in kept;
      assert u in KeysOf(kept, (u: Url) => u);
      assert u in KeysOf(keys, (u: Url) => u);
    }
    keys
  }

  /** `extract_content_for_multiple_urls` of the primary-only extractor: a
      task dictionary keyed by the URLs that have left the aggregator, its
      results gathered in key order and zipped back onto the keys. */
  function ExtractNonAggregator(urls: seq<Url>, web: Web): (r: map<Url, Option<string>>)
    ensures r.Keys == set u | u in urls && !IsAggregator(u)
    ensures forall u :: u in r ==> r[u] == ExtractPrimary(u, web)
    ensures forall u :: u in r && r[u].Some? ==> r[u].value != ""
  {
    var keys := TaskKeys(urls);
    ZipToMap(keys, MapSeq(keys, u => ExtractPrimary(u, web)))
  }
}
