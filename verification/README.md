# News sentiment pipeline: a Dafny model

This project models the data path of a company news-sentiment dashboard. It
covers the path from a search for a company's news to the lists the browser
shows. The modules follow the program's files:

| module | file | models |
|---|---|---|
| `Common` | shared | `Option`/`Result`, the aggregator URL prefix `https://news.google.com`, order-keeping filter, keep-first de-duplication on a key, `dict(zip(keys, values))` |
| `Discovery` | `utils/gnews_scraper.py` | parsing the period (`"30d"`), the five search windows, collecting hits, concatenating the windows, sorting by date and dropping duplicate `(Title, Link)` pairs |
| `Resolver` | both `utils/playwright_rssLinksResolver*.py` | polling a page until it leaves the aggregator, the worker-pool variant (queue, sentinels, `task_done`) and the semaphore variant (bounded admission, `dict(zip(…))`) |
| `Extraction` | `utils/articleContentExtractor.py`, `utils/trafilatura_articleContentExtractor.py` | fetching with `raise_for_status`, the primary extractor, the fallback extractor, both multi-URL drivers and the summary counts |
| `Pipeline` | `app.py` | the `/scraper-score` merge: map the resolved links and the contents onto the table, `dropna` after each stage |
| `Grouping` | shared | `groupby` on an integer key, and a stable sort built on it |
| `Analysis` | `utils/gemini_analyser_async.py` | one chunk per publication date, one chat session per chunk, stamping replies with date and link, token sums, and formatting of the `Q…` answer columns |
| `QnA` | `utils/QnA_extractor.py` | flattening the answer columns into a question/date/link/answer table |
| `Dashboard` | `static/js/scripts.js` | best/worst record (reduce-max), the best- and worst-date lists, chart-click classification with per-story de-duplication, the gauge cycle, and the x-axis tick sampling |

Everything the program does outside its own code is a parameter of the model:

- the news search;
- the headless browser: the URL a page shows after `j` waits, as a function of the link, and the budget of waits;
- the HTTP fetch, trafilatura and newspaper3k;
- the language model and its JSON parser, and `ast.literal_eval`;
- the clock: "today" is a day number.

Dates are Python date ordinals: 0001-01-01 is day 1 and 9999-12-31 is day 3652059. `None`, `NaN` and exceptions become `Option`,
a `Missing` cell and `Result` values.

Several points follow the code where the comments or documented intent say
otherwise:

- An HTTP fetch fails for status 400 and above (`raise_for_status`), not for every status outside 2xx.
- The semaphore resolver returns the final URL even when it is still an aggregator URL. Only the worker-pool resolver maps that case to `None`.
- `app.py` imports the semaphore resolver and the primary-only extractor. The fallback extractor is modelled but is not on the application's path.
- The scraper removes duplicates on the pair `(Title, Link)`, not on the link alone.

## Model

| member | source | states |
|---|---|---|
| Common.FilterCounts | utils/QnA_extractor.py:41-47 | a filter keeps every copy of an accepted element and no copy of a rejected one |
| Common.DropDuplicatesBy | utils/gnews_scraper.py:127 | every key of the input is present exactly once in the result, and the result keeps the input's order |
| Common.DropDuplicatesKeepsFirst | utils/gnews_scraper.py:127 | an element survives exactly when it is the first occurrence of its key (`keep="first"`) |
| Common.ZipToMap | utils/playwright_rssLinksResolver.py:71 | the map's keys are exactly the listed keys; each value comes from a position holding that key, and a key that is not repeated later maps to its own value |
| Discovery.ParsePeriod | utils/gnews_scraper.py:12-28 | success only for text ending in `d`; any other last character is an error; the empty text (the `IndexError`) is the only case giving the empty-period error |
| Discovery.PeriodRoundTrip | utils/gnews_scraper.py:22-26 | for every integer `n`, negative ones included, the decimal text of `n` followed by `d` parses back to `n` |
| Discovery.OtherUnitRejected | utils/gnews_scraper.py:25-28 | a well-formed number followed by any unit other than `d` is rejected with the unit error |
| Discovery.Intervals | utils/gnews_scraper.py:99-112 | five windows, each starting where the previous ends; the first starts `days` before today and the last ends today; the first four span `days // 5` and the last also takes the remainder |
| Discovery.IntervalsCover | utils/gnews_scraper.py:99-112 | for a non-negative number of days, every window is well-ordered and every day of the period falls in some window |
| Discovery.FetchInterval | utils/gnews_scraper.py:46-71 | every article kept came from a search hit and has a non-empty title; every usable hit is kept; a failed search yields no articles |
| Discovery.SortByDate | utils/gnews_scraper.py:127 | the result is ordered by date and is a permutation of the input |
| Discovery.WindowTables | utils/gnews_scraper.py:118-124 | one table per window, each the collected result of searching that window; every article has a title |
| Discovery.MergeTables | utils/gnews_scraper.py:115-133 | the frame has no columns exactly when no window returned an article; otherwise its rows are date-ordered, have pairwise distinct `(Title, Link)` keys, carry exactly the keys the windows returned, and are drawn from the windows; of several copies of one key, the kept row is no later than any copy (sorting by date before `keep="first"`) |
| Discovery.EarliestCopyIsKept | utils/gnews_scraper.py:127 | two copies of one `(Title, Link)` from different windows merge to the earlier-dated copy, whichever window came first |
| Discovery.Scrape | utils/gnews_scraper.py:76-133 | a bad period, or a start or window boundary date outside 0001-01-01..9999-12-31 (the `OverflowError` of lines 99 and 107-108, caught at 131-133), gives the column-less frame; otherwise the frame is column-less exactly when every window's search failed or found no titled article; any table is date-ordered, duplicate-free on `(Title, Link)` and titled, every row was found by some window's search, and each row is no later than any found copy of its key |
| Discovery.InRangePeriodIsSearchable | utils/gnews_scraper.py:99-110 | when the start date and today are both valid dates and the period is not negative, every window boundary is a valid date |
| Discovery.PeriodBeyondDateRangeIsCaught | utils/gnews_scraper.py:99-133 | a period reaching back before 0001-01-01 yields the column-less frame, whatever the search returns |
| Discovery.ScrapeKeysAreUnionOfWindows | utils/gnews_scraper.py:118-127 | for a period that parses with in-range dates, a `(Title, Link)` key is in the result (a column-less frame has none) exactly when some window's search returned it |
| Resolver.StopAfter | utils/playwright_rssLinksResolver_optimized.py:31-35 | polling ends at the first wait after which the URL has left the aggregator, or once the time budget is exceeded; every URL seen before the end was an aggregator URL |
| Resolver.PollingIsBounded | utils/playwright_rssLinksResolver_optimized.py:31-35 | the number of waits never exceeds the budget, or one wait when the budget is zero |
| Resolver.PoolOutcome | utils/playwright_rssLinksResolver_optimized.py:27-45 | a resolved link is never an aggregator URL and is the page's final URL; a page whose final URL left the aggregator is always resolved |
| Resolver.SemaphoreOutcome | utils/playwright_rssLinksResolver.py:29-50 | the result is `None` exactly when navigation raised; otherwise it is the final URL, aggregator or not |
| Resolver.VariantsDifferOnlyOnAggregatorUrls | utils/playwright_rssLinksResolver_optimized.py:37-41 | given one shared observed navigation (the same `Navigation`), the two decision rules agree, except that a final URL still under the aggregator is `None` in the pool and returned by the semaphore variant |
| Resolver.NeverRedirecting | utils/playwright_rssLinksResolver.py:39-47 | a page that never leaves the aggregator is unresolved in the pool but comes back as an aggregator URL from the semaphore variant |
| Resolver.AlreadyResolvedIsKept | utils/playwright_rssLinksResolver_optimized.py:32-39 | a link that is already outside the aggregator comes back unchanged from both variants |
| Resolver.SignalWorkers | utils/playwright_rssLinksResolver_optimized.py:78-81 | one sentinel per worker makes every one of the `max_pages` workers exit |
| Resolver.ResolveWithWorkerPool | utils/playwright_rssLinksResolver_optimized.py:49-81 | the result has exactly the input links as keys, each mapped to its pool outcome, never to an aggregator URL; `task_done` is called once per queued link and all workers exit |
| Resolver.ResolveWithSemaphore | utils/playwright_rssLinksResolver.py:55-71 | the result has exactly the input links as keys, each mapped to its semaphore outcome |
| Resolver.AdmissionBounded | utils/playwright_rssLinksResolver.py:62-66 | over any sequence of arrivals and completions, at most `max_concurrent_tasks` fetches are inside the semaphore |
| Extraction.FetchPage | utils/articleContentExtractor.py:28-34 | the page body is returned exactly for a response with status below 400 |
| Extraction.ExtractPrimary | utils/trafilatura_articleContentExtractor.py:41-56 | failure exactly when the fetch gives no page, or an empty one, or trafilatura extracts nothing; success is trafilatura's non-empty text |
| Extraction.ExtractSecondary | utils/articleContentExtractor.py:70-81 | failure exactly when newspaper3k yields no text or empty text |
| Extraction.ExtractWithFallback | utils/articleContentExtractor.py:106-112 | the primary text when there is one, otherwise the fallback's result; failure exactly when both fail |
| Extraction.ExtractAll | utils/articleContentExtractor.py:124-128 | keys are exactly the URLs; each value is the fallback extraction, `None` exactly when both extractors fail |
| Extraction.SummaryAsWritten | utils/articleContentExtractor.py:143-145 | as written: processed is the number of URLs and success is that number minus the failures; the failures are the distinct failing URLs, so there are never more failures and never fewer successes than the per-position count |
| Extraction.FailedUrlsAtMostPositions | utils/articleContentExtractor.py:143-145 | counting distinct failing URLs never exceeds counting failing positions |
| Extraction.FailedUrlsOfDistinct | utils/articleContentExtractor.py:143-145 | when no URL is listed twice, distinct failing URLs and failing positions are equally many |
| Extraction.SummariesAgreeWithoutRepeats | utils/articleContentExtractor.py:143-145 | when no URL is listed twice, the summary as written equals the corrected one |
| Extraction.Summarize | utils/articleContentExtractor.py:143-145 | corrected: success and failure are counted per listed URL and add up to the number processed |
| Extraction.PositionsPartition | utils/articleContentExtractor.py:143-145 | every listed URL is counted exactly once, as a success or as a failure |
| Extraction.AllFailingReportsNoSuccess | utils/articleContentExtractor.py:143-145 | when every extraction failed, the corrected summary reports no success |
| Extraction.SummaryAsWrittenCountsFailedDuplicateAsSuccess | utils/articleContentExtractor.py:143-145 | one failing URL listed twice is reported as one success and one failure as written, and as two failures when corrected |
| Extraction.TaskKeys | utils/trafilatura_articleContentExtractor.py:69 | the dictionary comprehension's keys: exactly the non-aggregator URLs, each once |
| Extraction.ExtractNonAggregator | utils/trafilatura_articleContentExtractor.py:58-73 | keys are exactly the non-aggregator URLs; each value is the primary extraction, and any content is non-empty |
| Pipeline.AttachResolved | app.py:40 | row `i` keeps article `i` and takes the resolver's answer for its link, with a missing key read as null |
| Pipeline.AttachContent | app.py:51 | row `i` keeps its article and link and takes the extracted content of its resolved link; a row without a resolved link gets no content |
| Pipeline.MergeStages | app.py:37-52 | no more rows than articles; every row has a resolved link and content that agree with the two maps |
| Pipeline.MergeIsSurvivors | app.py:37-52 | the two-stage merge keeps exactly the articles whose link resolves and whose resolved link has content, in order |
| Pipeline.SurvivorsKeepOrder | app.py:42-52 | the articles left after both `dropna` steps are a subsequence of the scraped table |
| Pipeline.MergeSeesArticle | app.py:37-51 | for one scraped article, the resolver's map holds the semaphore outcome of its link, and the content map holds the primary extraction of that outcome, or nothing when it is an aggregator URL |
| Pipeline.SurvivorsAreExpected | app.py:37-52 | over the whole table, the merged rows are exactly the articles that resolve outside the aggregator and extract, each with its link and content |
| Pipeline.ResolveAndExtractIsExpected | app.py:37-52 | the route's rows are exactly those articles, in the table's order |
| Pipeline.ExpectedRowsAreClean | app.py:42-52 | every surviving row has a resolved link outside the aggregator and non-empty content |
| Pipeline.ScraperScoreAsWritten | app.py:31-37 | as written: a column-less scraper result raises `KeyError('Link')` |
| Pipeline.ScraperScore | app.py:31-52 | corrected: a column-less scraper result gives no rows; any table gives exactly the expected rows |
| Pipeline.EmptyDiscoveryFailsAsWritten | utils/gnews_scraper.py:127-133 | when every search fails or finds nothing, the scraper returns a column-less frame; the route as written fails on it and the corrected route returns no rows |
| Grouping.GroupsShareKey | utils/gemini_analyser_async.py:137 | every group is non-empty and its members come from the input and share the group's key |
| Grouping.GroupKeysIncrease | utils/gemini_analyser_async.py:137 | group keys strictly increase, so each date gets one chunk, earliest first |
| Grouping.GroupingIsPermutation | utils/gemini_analyser_async.py:137 | the groups together hold exactly the input rows, counting repeats |
| Grouping.SortedInputIsNotReordered | utils/gemini_analyser_async.py:137 | grouping a key-sorted table and reading the groups back in order gives the table unchanged |
| Grouping.StableSortIsSorted | utils/QnA_extractor.py:34 | the sort by key orders the elements |
| Grouping.StableSortIsStable | utils/QnA_extractor.py:34 | elements with equal keys keep their original order |
| Analysis.Collapse | utils/gemini_analyser_async.py:39-47 | `N/A` exactly when both parts are missing; only the category when the text is missing; otherwise the category and the text on two lines |
| Analysis.CollapseRoundTrip | utils/gemini_analyser_async.py:39-47 | for a category without a line break, the category and the text can be read back from the formatted answer |
| Analysis.FormatQValue | utils/gemini_analyser_async.py:24-47 | a dictionary, given or parsed, is collapsed; a `ValueError` while parsing gives the fixed message; the call raises exactly for NaN or numeric cells, non-dictionary literals and syntax errors |
| Analysis.ProcessArticle | utils/gemini_analyser_async.py:57-75 | a record exactly when the model replied and the reply parsed; it holds the reply's fields plus the article's date and resolved link; its tokens are the reply's, and a failure costs none |
| Analysis.ChunkOutcomes | utils/gemini_analyser_async.py:87-94 | each article of a chunk is asked in the session that has seen exactly the articles before it |
| Analysis.ProcessChunk | utils/gemini_analyser_async.py:77-101 | results are the truthy records in article order; the token counts are summed over every article |
| Analysis.EverySuccessIsKept | utils/gemini_analyser_async.py:93-98 | the truthiness test loses no parsed reply, and a chunk with no success spent no tokens |
| Analysis.KeptRecordsComeFromArticles | utils/gemini_analyser_async.py:93-96 | every record a chunk yields carries the date and link of one of its articles |
| Analysis.ProcessAllChunks | utils/gemini_analyser_async.py:103-125 | the chunks' results are concatenated in chunk order and their tokens are summed |
| Analysis.AllKeptSplits | utils/gemini_analyser_async.py:115-119 | the results for `a + b` are the results for `a` followed by those for `b`, and the token totals add up |
| Analysis.FormatQColumns | utils/gemini_analyser_async.py:146-149 | succeeds exactly when every answer cell formats; every record then has every column of the table; answer columns hold the formatted text and other cells are unchanged |
| Analysis.ProcessArticles | utils/gemini_analyser_async.py:127-151 | the analysed table is the answer-formatted concatenation of the records of every publication-date chunk, earliest date first |
| Analysis.AnalysedRecordsComeFromArticles | utils/gemini_analyser_async.py:115-119 | every analysed record carries the date and link of an article of some chunk |
| Analysis.AnalysedRecordsAtMostArticles | utils/gemini_analyser_async.py:93-96 | the chunks together yield no more records than they hold articles |
| Analysis.AtMostOneRecordPerArticle | utils/gemini_analyser_async.py:127-151 | grouping the table by date and analysing every group yields no more records than the table has rows |
| Analysis.FormattingKeepsOtherCell | utils/gemini_analyser_async.py:147-149 | formatting leaves a cell outside the `Q` columns as it was |
| Analysis.FormattingKeepsDateAndLink | utils/gemini_analyser_async.py:147-149 | formatting leaves the `date` and `link` cells as they were |
| Analysis.ProcessedRecordsKeepDateAndLink | utils/gemini_analyser_async.py:127-151 | every output record carries the date and link of an input article |
| QnA.StripIsIdempotent | utils/QnA_extractor.py:43 | stripping twice is stripping once |
| QnA.StripKeepsPrefix | utils/QnA_extractor.py:43 | a prefix that neither starts nor ends with whitespace survives stripping |
| QnA.QuestionColumns | utils/QnA_extractor.py:33-34 | exactly the `Q` columns, ordered by name length, with columns of equal length in table order |
| QnA.Answers | utils/QnA_extractor.py:41-47 | every answer row comes from a table row whose answer is present and, after stripping, does not start with `N/A`; every such table row gives its answer row; there is exactly one answer row per such table row, repeats included; the answer rows keep the table's order; no row names a question |
| QnA.RowsFor | utils/QnA_extractor.py:37-47 | an unknown question column contributes nothing; a known one contributes its header followed by its answer rows, and only the header names a question |
| QnA.RowCount | utils/QnA_extractor.py:36-49 | the output has one header per known question column plus, for each such column, one row per table row whose answer is kept |
| QnA.HeadersOfColumn | utils/QnA_extractor.py:38-40 | one column's rows hold exactly one header when the question is known, and none otherwise |
| QnA.HeadersFollowColumns | utils/QnA_extractor.py:37-40 | the header rows of the output are the known question columns' texts, in column order |
| QnA.NotApplicableCategoryIsDropped | utils/QnA_extractor.py:43-44 | an answer formatted from an `N/A` category never reaches the output |
| QnA.NonTextAnswersAreKept | utils/QnA_extractor.py:41-47 | a present answer that is not a string is always emitted, since only strings are tested for `N/A` |
| Dashboard.Highest | static/js/scripts.js:31-32 | no result exactly for an empty array; otherwise a record of maximal score with no later record scoring as high |
| Dashboard.LastMaxIsUnique | static/js/scripts.js:31-32 | only one position can be the last record of maximal score |
| Dashboard.TieGoesToLater | static/js/scripts.js:31 | of two records with equal score, the later one wins |
| Dashboard.BestDayList | static/js/scripts.js:41-54 | exactly the positive-leaning records of the best record's date, in order, each kept as many times as it occurs in the data |
| Dashboard.WorstDayList | static/js/scripts.js:63-76 | exactly the negative-leaning records of the worst record's date, in order, each kept as many times as it occurs in the data |
| Dashboard.BestDayListRepeatsStories | static/js/scripts.js:41-54 | the best-date list repeats a story whose id appears twice, and the chart-click list shows it once |
| Dashboard.ClassifyClick | static/js/scripts.js:168-196 | the two lists are the clicked date's positive- and negative-leaning records, keep-first de-duplicated on `unique_id` |
| Dashboard.ClickListIsOnePerStory | static/js/scripts.js:181-195 | each listed record has the clicked date and the lean; ids are distinct; every leaning story of the date is represented |
| Dashboard.ClickListKeepsFirst | static/js/scripts.js:181-195 | a record is listed exactly when it is the first record of its story id among the clicked date's records of that lean, as the seen-set check keeps |
| Dashboard.ClickListsAreDisjoint | static/js/scripts.js:185-195 | no record is in both lists, and a record with equal scores is in neither |
| Dashboard.NextGauge | static/js/scripts.js:376-387 | every click changes the gauge |
| Dashboard.ThreeClicksRestore | static/js/scripts.js:376-387 | three clicks bring the gauge back, and one or two do not |
| Dashboard.GaugeAfterClicks | static/js/scripts.js:376-387 | from the initial positive state, `n` clicks give positive, negative, neutral by `n mod 3` |
| Dashboard.TickInterval | static/js/scripts.js:140-141 | `ceil(n / 6)`: the smallest interval that covers `n` dates in six steps, and zero for no dates |
| Dashboard.AtMostSixTicks | static/js/scripts.js:140-142 | sampling every interval-th date never gives more than six ticks |
| Dashboard.TickPositions | static/js/scripts.js:140-142 | the tick positions are exactly the positions that are multiples of the interval; there are at most six; the first is position 0 |
| Dashboard.Ticks | static/js/scripts.js:140-142 | at most six ticks; the first date is always a tick; a date is a tick exactly when it stands at a multiple of the interval |

## Left out

- Network, browser, HTTP and model calls are parameters, and so are their timeouts. Logging, Excel files and Flask's request and response plumbing are not modelled.
- Resolver.VariantsDifferOnlyOnAggregatorUrls: compares the two decision rules on one shared `Navigation`. The real variants differ in what they observe. The pool polls every 100 ms (utils/playwright_rssLinksResolver_optimized.py:32) and the semaphore variant every 0.5 s (utils/playwright_rssLinksResolver.py:40). Their page-load timeouts are 20 s (utils/playwright_rssLinksResolver_optimized.py:7) and 5 s (utils/playwright_rssLinksResolver.py:8). The pool reuses one page per worker (utils/playwright_rssLinksResolver_optimized.py:64), while the semaphore variant launches a browser per link (utils/playwright_rssLinksResolver.py:32-33). So on the same real page their wait budgets and final URLs can differ.
- Resolver.ResolveWithSemaphore: the browser is a function of the URL, so every copy of a repeated link resolves the same way. In the source each copy is its own browser launch (utils/playwright_rssLinksResolver.py:32-33, 68-69), and `dict(zip(links, results))` (line 71) keeps the last copy's result, which may differ from an earlier copy's. Links can repeat because the scraper de-duplicates on `(Title, Link)` (utils/gnews_scraper.py:127). The same holds for the web fetch in the extraction stage (utils/articleContentExtractor.py:126-128). So Pipeline.MergeSeesArticle's "the map holds the outcome of the row's link" relies on this determinism.
- Concurrency is not modelled as interleavings. The thread pool's `as_completed` order is fixed to window order. The worker pool is a sequential drain of the queue. `asyncio.gather` keeps its documented input order.
- Semaphore admission is modelled on its own, as `Resolver.AdmissionBounded`. It is not tied to the fetches it guards.
- Discovery.SortByDate: pandas' default sort is not stable; the model uses one stable order. Its contract, date order plus permutation, holds for any order the sort may pick. Which rows survive de-duplication does not depend on that order, because equal `(Title, Link, Published_Date)` rows are identical.
- Discovery.ParsePeriod: `int()` also accepts surrounding whitespace, `_` digit separators and non-ASCII Unicode decimal digits (`"٣٠d"` is 30 days); the model accepts only an optional sign followed by ASCII digits.
- The search library's own date parsing and its `max_results` cap are not modelled. Each search is a list of hits.
- Resolver.StopAfter: elapsed wall-clock time is modelled as a budget of waits.
- Resolver.ResolveWithWorkerPool requires `max_pages > 0` when there are links: with no workers, `queue.join()` never returns, and the model cannot return from a hang.
- The semaphore resolver closes its browser a second time in `finally`. That repeated close is not modelled.
- QnA.StripIsIdempotent: the whitespace set is ASCII whitespace plus the four separator controls `\x1c`–`\x1f`. Python's `str.strip` also removes further Unicode spaces.
- Analysis.FormatQValue: the JSON reply parser and `ast.literal_eval` are parameters. Their outcomes are modelled as a dictionary, another literal, a `ValueError` or a `SyntaxError`.
- Pricing in rupees, the floating-point cost logs and the model configuration files are not modelled. The `gemini_model.py`, `gemini_reportGen.py`, `sysInstruct_reportGen.py` and `markdown2htmlreport.py` files are not part of this model.
- Dashboard: scores and `unique_id` are `real` numbers; `NaN` is not modelled.
- The following dashboard pieces are not modelled, being floating point or rendering:
  - the per-date means (`d3.rollup`) and the tick label text (`toISOString().slice(0, 7)`);
  - the gauge's colours and mean values, and Plotly/DOM rendering.
- Dashboard.Ticks takes the already aggregated, date-sorted list of dates.
- Dashboard.Highest: `reduce` on an empty array throws; the model returns `None`.

## Findings

| source | as written | input that shows it | evidently intended | confidence | as-written member | corrected member |
|---|---|---|---|---|---|---|
| utils/articleContentExtractor.py:143-145 | failures are counted over the result dictionary's distinct URLs, and successes are the number of listed URLs minus that | the list `["u", "u"]` where `u` fails: reports 1 success and 1 failure | successes and failures counted over the same URLs, so that a failing URL is never a success | not executed | Extraction.SummaryAsWritten (witness: Extraction.SummaryAsWrittenCountsFailedDuplicateAsSuccess) | Extraction.Summarize |
| app.py:37 | the route reads `gnews_rss_df["Link"]`, but the scraper returns a frame without columns when no window found an article or on any error (utils/gnews_scraper.py:127-133) | a period for which every search fails or finds nothing: `KeyError: 'Link'` | an empty result flows through as an empty table | not executed | Pipeline.ScraperScoreAsWritten (witness: Pipeline.EmptyDiscoveryFailsAsWritten) | Pipeline.ScraperScore |
