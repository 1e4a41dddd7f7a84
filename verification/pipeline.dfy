/** The merge logic of the `scraper_score` route in app.py: the discovery
    table gains a `ResolvedLink` column mapped from the resolver's dictionary,
    loses its rows with a null, gains a `Content` column mapped from the
    extractor's dictionary, and loses its rows with a null again. */
module Pipeline {
  import opened Common
  import Discovery
  import Resolver
  import Extraction

  type Article = Discovery.Article

  /** `dict.get`: a missing key and a stored `None` both read as `None`. */
  function Get<V>(m: map<Url, Option<V>>, k: Url): Option<V> {
    if k in m then m[k] else None
  }

  /** A row once `ResolvedLink` has been added. */
  datatype Linked = Linked(article: Article, resolved: Option<Url>)

  /** A row once `Content` has been added. */
  datatype Row = Row(article: Article, resolved: Option<Url>, content: Option<string>)

  /** `df["ResolvedLink"] = df["Link"].map(resolved_links.get)`. */
  function AttachResolved(arts: seq<Article>, resolved: map<Url, Option<Url>>): (rows: seq<Linked>)
    ensures |rows| == |arts|
    ensures forall i :: 0 <= i < |arts| ==> rows[i] == Linked(arts[i], Get(resolved, arts[i].link))
  {
    MapSeq(arts, (a: Article) => Linked(a, Get(resolved, a.link)))
  }

  /** `dropna()` on the table with `ResolvedLink`: the discovery columns are
      never null, so a row goes exactly when its resolved link is null. */
  predicate LinkedHasNoNull(r: Linked) {
    r.resolved.Some?
  }

  /** `df["Content"] = df["ResolvedLink"].map(extracted_contents.get)`. */
  function AttachContent(rows: seq<Linked>, contents: map<Url, Option<string>>): (out: seq<Row>)
    ensures |out| == |rows|
    ensures forall i :: 0 <= i < |rows| ==>
      out[i] == Row(rows[i].article, rows[i].resolved,
                    if rows[i].resolved.Some? then Get(contents, rows[i].resolved.value) else None)
  {
    MapSeq(rows, (r: Linked) =>
      Row(r.article, r.resolved, if r.resolved.Some? then Get(contents, r.resolved.value) else None))
  }

  /** `dropna()` on the table with `Content`: a null in any column drops the row. */
  predicate RowHasNoNull(r: Row) {
    r.resolved.Some? && r.content.Some?
  }

  /** The resolver's keys for the resolve stage: the `Link` column as a list. */
  function Links(arts: seq<Article>): (links: seq<Url>)
    ensures |links| == |arts|
    ensures forall i :: 0 <= i < |arts| ==> links[i] == arts[i].link
  {
    MapSeq(arts, (a: Article) => a.link)
  }

  /** The extractor's input: the `ResolvedLink` column of the surviving rows. */
  function ResolvedLinks(rows: seq<Linked>): (links: seq<Url>)
    ensures |links| == |rows|
    ensures forall i :: 0 <= i < |rows| ==>
      links[i] == (if rows[i].resolved.Some? then rows[i].resolved.value else "")
  {
    MapSeq(rows, (r: Linked) => if r.resolved.Some? then r.resolved.value else "")
  }

  function ArticlesOf(rows: seq<Row>): (arts: seq<Article>)
    ensures |arts| == |rows|
    ensures forall i :: 0 <= i < |rows| ==> arts[i] == rows[i].article
  {
    MapSeq(rows, (r: Row) => r.article)
  }

  // ------------------------------------------------------------ the merge

  /** Both map-then-dropna stages, for given resolver and extractor outputs. */
  function MergeStages(arts: seq<Article>, resolved: map<Url, Option<Url>>,
                       contents: map<Url, Option<string>>): (rows: seq<Row>)
    ensures |rows| <= |Filter(AttachResolved(arts, resolved), LinkedHasNoNull)| <= |arts|
    ensures forall i :: 0 <= i < |rows| ==> rows[i].resolved == Get(resolved, rows[i].article.link)
    ensures forall i :: 0 <= i < |rows| ==>
      RowHasNoNull(rows[i]) && rows[i].content == Get(contents, rows[i].resolved.value)
  {
    var linked := Filter(AttachResolved(arts, resolved), LinkedHasNoNull);
    var rows := Filter(AttachContent(linked, contents), RowHasNoNull);
    assert forall i :: 0 <= i < |rows| ==> rows[i] in rows;
    forall i | 0 <= i < |rows|
      ensures rows[i].resolved == Get(resolved, rows[i].article.link)
      ensures rows[i].content == Get(contents, rows[i].resolved.value)
    {
      var j :| 0 <= j < |AttachContent(linked, contents)| && AttachContent(linked, contents)[j] == rows[i];
      assert linked[j] in linked;
      var k :| 0 <= k < |AttachResolved(arts, resolved)| && AttachResolved(arts, resolved)[k] == linked[j];
    }
    rows
  }

  /** Reference definition, one article at a time: an article survives when
      the resolver gave its link a value and the extractor gave that value a
      text; it then carries both. */
  predicate Survives(a: Article, resolved: map<Url, Option<Url>>, contents: map<Url, Option<string>>) {
    Get(resolved, a.link).Some? && Get(contents, Get(resolved, a.link).value).Some?
  }

  function Survivors(arts: seq<Article>, resolved: map<Url, Option<Url>>,
                     contents: map<Url, Option<string>>): seq<Row>
  {
    if |arts| == 0 then []
    else
      var a := arts[|arts| - 1];
      Survivors(arts[..|arts| - 1], resolved, contents) +
        (if Survives(a, resolved, contents)
         then [Row(a, Get(resolved, a.link), Get(contents, Get(resolved, a.link).value))]
         else [])
  }

  /** Adding one article to the table adds at most its own row to the resolve stage. */
  lemma ResolveStageSnoc(arts: seq<Article>, a: Article, resolved: map<Url, Option<Url>>)
    ensures Filter(AttachResolved(arts + [a], resolved), LinkedHasNoNull) ==
      Filter(AttachResolved(arts, resolved), LinkedHasNoNull) +
      (if Get(resolved, a.link).Some? then [Linked(a, Get(resolved, a.link))] else [])
  {
    var la := Linked(a, Get(resolved, a.link));
    assert AttachResolved(arts + [a], resolved) == AttachResolved(arts, resolved) + [la];
    FilterConcat(AttachResolved(arts, resolved), [la], LinkedHasNoNull);
    FilterSingleton(la, LinkedHasNoNull);
  }

  /** The content stage works row by row over the resolve stage's output. */
  lemma ContentStageConcat(linked: seq<Linked>, extra: seq<Linked>, contents: map<Url, Option<string>>)
    ensures Filter(AttachContent(linked + extra, contents), RowHasNoNull) ==
      Filter(AttachContent(linked, contents), RowHasNoNull) + Filter(AttachContent(extra, contents), RowHasNoNull)
  {
    assert AttachContent(linked + extra, contents)
        == AttachContent(linked, contents) + AttachContent(extra, contents);
    FilterConcat(AttachContent(linked, contents), AttachContent(extra, contents), RowHasNoNull);
  }

  /** Adding one article to the table adds at most its own row to the merge. */
  lemma MergeSnoc(arts: seq<Article>, a: Article, resolved: map<Url, Option<Url>>,
                  contents: map<Url, Option<string>>)
    ensures MergeStages(arts + [a], resolved, contents) == MergeStages(arts, resolved, contents) +
      (if Survives(a, resolved, contents)
       then [Row(a, Get(resolved, a.link), Get(contents, Get(resolved, a.link).value))]
       else [])
  {
    ResolveStageSnoc(arts, a, resolved);
    var linked := Filter(AttachResolved(arts, resolved), LinkedHasNoNull);
    var extra := if Get(resolved, a.link).Some? then [Linked(a, Get(resolved, a.link))] else [];
    ContentStageConcat(linked, extra, contents);
    if extra != [] {
      var row := AttachContent(extra, contents)[0];
      assert AttachContent(extra, contents) == [row];
      FilterSingleton(row, RowHasNoNull);
    }
  }

  /** The merge keeps exactly the surviving articles, each once, in discovery order. */
  lemma {:induction false} MergeIsSurvivors(arts: seq<Article>, resolved: map<Url, Option<Url>>,
                                            contents: map<Url, Option<string>>)
    ensures MergeStages(arts, resolved, contents) == Survivors(arts, resolved, contents)
    decreases |arts|
  {
    if |arts| > 0 {
      var arts' := arts[..|arts| - 1];
      var a := arts[|arts| - 1];
      assert arts == arts' + [a];
      MergeIsSurvivors(arts', resolved, contents);
      MergeSnoc(arts', a, resolved, contents);
    }
  }

  /** Survivors keep their discovery order: rows are only ever removed. */
  lemma {:induction false} SurvivorsKeepOrder(arts: seq<Article>, resolved: map<Url, Option<Url>>,
                                              contents: map<Url, Option<string>>)
    ensures IsSubsequence(ArticlesOf(Survivors(arts, resolved, contents)), arts)
    decreases |arts|
  {
    if |arts| > 0 {
      var arts' := arts[..|arts| - 1];
      var a := arts[|arts| - 1];
      SurvivorsKeepOrder(arts', resolved, contents);
      var prev := ArticlesOf(Survivors(arts', resolved, contents));
      assert arts == arts' + [a];
      if Survives(a, resolved, contents) {
        assert ArticlesOf(Survivors(arts, resolved, contents)) == prev + [a];
        SubsequenceSnoc(prev, arts', a);
      } else {
        assert ArticlesOf(Survivors(arts, resolved, contents)) == prev;
        SubsequenceOfPrefix(prev, arts);
      }
    }
  }

  // --------------------------------------------------- the route end to end

  /** The resolve, extract and merge steps as the route runs them: the
      semaphore resolver over the `Link` column, then the primary-only
      extractor over the surviving `ResolvedLink` column. */
  function ResolveAndExtract(arts: seq<Article>, navigate: Url -> Resolver.Navigation,
                             web: Extraction.Web): seq<Row>
  {
    var resolved := Resolver.ResolveWithSemaphore(Links(arts), navigate);
    var linked := Filter(AttachResolved(arts, resolved), LinkedHasNoNull);
    var contents := Extraction.ExtractNonAggregator(ResolvedLinks(linked), web);
    MergeStages(arts, resolved, contents)
  }

  /** Reference outcome for one article: the semaphore resolver yields a URL
      that has left the aggregator and the primary extractor gets text from it. */
  predicate EndToEnd(a: Article, navigate: Url -> Resolver.Navigation, web: Extraction.Web) {
    var r := Resolver.SemaphoreOutcome(navigate(a.link));
    r.Some? && !IsAggregator(r.value) && Extraction.ExtractPrimary(r.value, web).Some?
  }

  function Expected(arts: seq<Article>, navigate: Url -> Resolver.Navigation, web: Extraction.Web): seq<Row>
  {
    if |arts| == 0 then []
    else
      var a := arts[|arts| - 1];
      Expected(arts[..|arts| - 1], navigate, web) +
        (if EndToEnd(a, navigate, web)
         then [Row(a, Resolver.SemaphoreOutcome(navigate(a.link)),
                   Extraction.ExtractPrimary(Resolver.SemaphoreOutcome(navigate(a.link)).value, web))]
         else [])
  }

  /** What the merge sees for one discovered article: the resolver's value
      for its link, and for a resolved URL the extractor's value, which is
      missing exactly for aggregator URLs. */
  lemma MergeSeesArticle(a: Article, all: seq<Article>, navigate: Url -> Resolver.Navigation,
                         web: Extraction.Web)
    requires a in all
    ensures
      var resolved := Resolver.ResolveWithSemaphore(Links(all), navigate);
      var linked := Filter(AttachResolved(all, resolved), LinkedHasNoNull);
      var contents := Extraction.ExtractNonAggregator(ResolvedLinks(linked), web);
      var r := Resolver.SemaphoreOutcome(navigate(a.link));
      Get(resolved, a.link) == r &&
      (r.Some? ==>
         Get(contents, r.value) ==
         (if IsAggregator(r.value) then None else Extraction.ExtractPrimary(r.value, web)))
  {
    var resolved := Resolver.ResolveWithSemaphore(Links(all), navigate);
    var linked := Filter(AttachResolved(all, resolved), LinkedHasNoNull);
    var i :| 0 <= i < |all| && all[i] == a;
    assert Links(all)[i] == a.link;
    var r := Resolver.SemaphoreOutcome(navigate(a.link));
    if r.Some? {
      var la := AttachResolved(all, resolved)[i];
      assert la == Linked(a, r);
      assert la in AttachResolved(all, resolved);
      assert la in linked;
      var j :| 0 <= j < |linked| && linked[j] == la;
      assert ResolvedLinks(linked)[j] == r.value;
      assert r.value in ResolvedLinks(linked);
    }
  }

  lemma {:induction false} SurvivorsAreExpected(arts: seq<Article>, all: seq<Article>,
                                                navigate: Url -> Resolver.Navigation, web: Extraction.Web)
    requires forall a :: a in arts ==> a in all
    ensures
      var resolved := Resolver.ResolveWithSemaphore(Links(all), navigate);
      var linked := Filter(AttachResolved(all, resolved), LinkedHasNoNull);
      var contents := Extraction.ExtractNonAggregator(ResolvedLinks(linked), web);
      Survivors(arts, resolved, contents) == Expected(arts, navigate, web)
    decreases |arts|
  {
    if |arts| > 0 {
      var a := arts[|arts| - 1];
      assert a in arts;
      SurvivorsAreExpected(arts[..|arts| - 1], all, navigate, web);
      MergeSeesArticle(a, all, navigate, web);
    }
  }

  /** End to end, the rows the route hands to analysis are exactly the
      articles whose link resolved off the aggregator and whose page yielded
      text, in discovery order, carrying that URL and that text. A link whose
      redirect never completed survives the resolve stage with its aggregator
      URL and is dropped at extraction, whose dictionary omits such keys. */
  lemma ResolveAndExtractIsExpected(arts: seq<Article>, navigate: Url -> Resolver.Navigation,
                                    web: Extraction.Web)
    ensures ResolveAndExtract(arts, navigate, web) == Expected(arts, navigate, web)
    ensures IsSubsequence(ArticlesOf(ResolveAndExtract(arts, navigate, web)), arts)
  {
    var resolved := Resolver.ResolveWithSemaphore(Links(arts), navigate);
    var linked := Filter(AttachResolved(arts, resolved), LinkedHasNoNull);
    var contents := Extraction.ExtractNonAggregator(ResolvedLinks(linked), web);
    MergeIsSurvivors(arts, resolved, contents);
    SurvivorsAreExpected(arts, arts, navigate, web);
    SurvivorsKeepOrder(arts, resolved, contents);
  }

  /** No row reaching analysis carries an aggregator URL or an empty text. */
  lemma {:induction false} ExpectedRowsAreClean(arts: seq<Article>, navigate: Url -> Resolver.Navigation,
                                               web: Extraction.Web)
    ensures forall r :: r in Expected(arts, navigate, web) ==>
      r.resolved.Some? && !IsAggregator(r.resolved.value) && r.content.Some? && r.content.value != ""
    decreases |arts|
  {
    if |arts| > 0 {
      ExpectedRowsAreClean(arts[..|arts| - 1], navigate, web);
    }
  }

  // ------------------------------------------------------ empty discovery

  datatype RouteError = MissingColumn(name: string)

  /** As written: the route reads the `Link` column of whatever the scraper
      returned, and the column-less frame it returns when nothing was found
      (or the period did not parse) raises `KeyError`. */
  function ScraperScoreAsWritten(frame: Discovery.Frame, navigate: Url -> Resolver.Navigation,
                                 web: Extraction.Web): (r: Result<seq<Row>, RouteError>)
    ensures frame.Columnless? ==> r == Err(MissingColumn("Link"))
    ensures frame.Table? ==> r == Ok(ResolveAndExtract(frame.rows, navigate, web))
  {
    match frame
    case Columnless => Err(MissingColumn("Link"))
    case Table(arts) => Ok(ResolveAndExtract(arts, navigate, web))
  }

  /** Corrected: a column-less frame is the empty table, so an empty
      discovery gives an empty result instead of an error. */
  function ScraperScore(frame: Discovery.Frame, navigate: Url -> Resolver.Navigation,
                        web: Extraction.Web): (rows: seq<Row>)
    ensures frame.Columnless? ==> rows == []
    ensures frame.Table? ==> rows == Expected(frame.rows, navigate, web)
  {
    match frame
    case Columnless => []
    case Table(arts) =>
      ResolveAndExtractIsExpected(arts, navigate, web);
      ResolveAndExtract(arts, navigate, web)
  }

  /** A search that finds nothing in any window (every window empty or
      failed) makes the route as written fail, while the corrected route
      returns no rows. */
  lemma EmptyDiscoveryFailsAsWritten(period: string, today: int,
                                     search: Discovery.Interval -> Option<seq<Discovery.SearchHit>>,
                                     navigate: Url -> Resolver.Navigation, web: Extraction.Web)
    requires forall w :: search(w) == None || search(w) == Some([])
    ensures Discovery.Scrape(period, today, search).Columnless?
    ensures ScraperScoreAsWritten(Discovery.Scrape(period, today, search), navigate, web).Err?
    ensures ScraperScore(Discovery.Scrape(period, today, search), navigate, web) == []
  {
    if Discovery.ParsePeriod(period).Ok? {
      var tables := Discovery.WindowTables(today, Discovery.ParsePeriod(period).value, search);
      forall i | 0 <= i < |tables| ensures tables[i] == [] {
        var w := Discovery.Intervals(today, Discovery.ParsePeriod(period).value)[i];
        assert search(w) == None || search(w) == Some([]);
      }
      assert Discovery.Concat(tables) == [] by {
        if Discovery.Concat(tables) != [] {
          assert Discovery.Concat(tables)[0] in Discovery.Concat(tables);
        }
      }
      assert Discovery.MergeTables(tables) == Discovery.Columnless;
    }
  }
}
