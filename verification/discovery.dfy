/** Discovery stage of the pipeline: the period parser, the five chained
    search windows, the per-window result filter and the sort-and-deduplicate
    merge of utils/gnews_scraper.py. Dates are day numbers (Python date
    ordinals); the news search itself is a parameter standing for the search
    library. */
module Discovery {
  import opened Common

  // ---------------------------------------------------------------- periods

  datatype PeriodError =
    | EmptyPeriod    // `period[-1]` on "" raises IndexError
    | NotAnInteger   // `int(period[:-1])` raises ValueError
    | UnknownUnit    // the last character is not 'd'

  predicate IsDigit(c: char) {
    '0' <= c <= '9'
  }

  predicate AllDigits(s: string) {
    forall i :: 0 <= i < |s| ==> IsDigit(s[i])
  }

  function DigitsValue(s: string): nat
    requires AllDigits(s)
  {
    if |s| == 0 then 0
    else DigitsValue(s[..|s| - 1]) * 10 + (s[|s| - 1] as int - '0' as int)
  }

  /** Python's `int(text)` on an optional sign followed by decimal digits. */
  function ParseInt(text: string): Option<int> {
    if |text| > 0 && (text[0] == '-' || text[0] == '+') then
      var digits := text[1..];
      if |digits| > 0 && AllDigits(digits) then
        var magnitude: int := DigitsValue(digits);
        Some(if text[0] == '-' then -magnitude else magnitude)
      else None
    else if |text| > 0 && AllDigits(text) then Some(DigitsValue(text))
    else None
  }

  /** `get_days_from_period`: the number before a final 'd'. The integer is
      parsed before the unit is checked, so a bad number wins over a bad unit. */
  function ParsePeriod(period: string): (r: Result<int, PeriodError>)
    ensures r.Ok? ==> |period| > 0 && period[|period| - 1] == 'd'
    ensures |period| > 0 && period[|period| - 1] != 'd' ==> r.Err?
    ensures r == Err(EmptyPeriod) <==> |period| == 0
  {
    if |period| == 0 then Err(EmptyPeriod)
    else
      match ParseInt(period[..|period| - 1])
      case None => Err(NotAnInteger)
      case Some(n) => if period[|period| - 1] == 'd' then Ok(n) else Err(UnknownUnit)
  }

  function DigitChar(d: nat): char
    requires d < 10
  {
    ('0' as int + d) as char
  }

  /** Decimal text of a natural number, most significant digit first. */
  function NatText(n: nat): (s: string)
    ensures |s| > 0 && AllDigits(s)
  {
    if n < 10 then [DigitChar(n)] else NatText(n / 10) + [DigitChar(n % 10)]
  }

  /** Decimal text of an integer, as `str(n)` writes it. */
  function IntText(n: int): string {
    if n < 0 then "-" + NatText(-n) else NatText(n)
  }

  lemma {:induction false} NatTextValue(n: nat)
    ensures DigitsValue(NatText(n)) == n
  {
    if n >= 10 {
      NatTextValue(n / 10);
      var s := NatText(n);
      assert s[..|s| - 1] == NatText(n / 10);
    }
  }

  lemma IntTextParses(n: int)
    ensures ParseInt(IntText(n)) == Some(n)
  {
    if n < 0 {
      NatTextValue(-n);
      assert IntText(n)[1..] == NatText(-n);
    } else {
      NatTextValue(n);
    }
  }

  /** Round trip: the period a front end writes for `n` days parses back to `n`. */
  lemma PeriodRoundTrip(n: int)
    ensures ParsePeriod(IntText(n) + "d") == Ok(n)
  {
    var p := IntText(n) + "d";
    assert p[..|p| - 1] == IntText(n);
    IntTextParses(n);
  }

  /** Any other unit letter after a valid number is rejected as a unit error. */
  lemma OtherUnitRejected(n: int, unit: char)
    requires unit != 'd'
    ensures ParsePeriod(IntText(n) + [unit]) == Err(UnknownUnit)
  {
    var p := IntText(n) + [unit];
    assert p[..|p| - 1] == IntText(n);
    IntTextParses(n);
  }

  // ---------------------------------------------------------------- windows

  /** A search window `[start, end]` in day numbers. */
  datatype Interval = Interval(start: int, end: int)

  const IntervalCount: nat := 5

  /** The windows of `news_scraper_RSS_links`: five slices of `total_days // 5`
      days chained from `today - total_days`, the last one stretched to `today`.
      Python's `//` floors; Dafny's `/` agrees with it for the positive divisor 5. */
  function Intervals(today: int, totalDays: int): (r: seq<Interval>)
    ensures |r| == IntervalCount
    ensures r[0].start == today - totalDays
    ensures r[IntervalCount - 1].end == today
    ensures forall i :: 0 <= i < IntervalCount - 1 ==> r[i].end == r[i + 1].start
    ensures forall i :: 0 <= i < IntervalCount - 1 ==> r[i].end - r[i].start == totalDays / IntervalCount
    ensures r[IntervalCount - 1].end - r[IntervalCount - 1].start
         == totalDays / IntervalCount + totalDays % IntervalCount
  {
    var startDay := today - totalDays;
    var width := totalDays / IntervalCount;
    seq(IntervalCount, i requires 0 <= i < IntervalCount =>
      Interval(startDay + i * width,
               if i == IntervalCount - 1 then today else startDay + (i + 1) * width))
  }

  /** For a non-negative period every window is well ordered and together they
      cover every day from `today - totalDays` to `today`, whatever the remainder. */
  lemma IntervalsCover(today: int, totalDays: int, day: int)
    requires totalDays >= 0
    requires today - totalDays <= day <= today
    ensures forall i :: 0 <= i < IntervalCount ==>
      Intervals(today, totalDays)[i].start <= Intervals(today, totalDays)[i].end
    ensures exists i :: (0 <= i < IntervalCount &&
      Intervals(today, totalDays)[i].start <= day <= Intervals(today, totalDays)[i].end)
  {
    var r := Intervals(today, totalDays);
    var startDay := today - totalDays;
    var width := totalDays / IntervalCount;
    var x := day - startDay;
    assert width * 5 <= totalDays;
    if width == 0 || x >= 4 * width {
      assert r[4].start == startDay + 4 * width;
      assert r[4].start <= day <= r[4].end;
    } else if x < width {
      assert r[0].start <= day <= r[0].end;
    } else if x < 2 * width {
      assert r[1].start <= day <= r[1].end;
    } else if x < 3 * width {
      assert r[2].start <= day <= r[2].end;
    } else {
      assert r[3].start <= day <= r[3].end;
    }
  }

  // ------------------------------------------------------------ date range

  /** Day numbers are Python date ordinals (`date.toordinal()`): `date.min`,
      0001-01-01, is day 1 and `date.max`, 9999-12-31, is day 3652059. */
  const MinDay: int := 1
  const MaxDay: int := 3652059

  predicate InDateRange(d: int) {
    MinDay <= d <= MaxDay
  }

  /** The `k`-th window boundary the scraper computes,
      `start_dt + timedelta(days=k * interval_days)`. */
  function Boundary(today: int, totalDays: int, k: int): int {
    today - totalDays + k * (totalDays / IntervalCount)
  }

  /** Every date the scraper derives from `today` and the period is a valid
      `date`: the start and the boundaries for k = 0..5 (the loop also computes
      the sixth before replacing it with `today`). Otherwise the date
      arithmetic raises `OverflowError`. */
  predicate WindowDatesValid(today: int, totalDays: int) {
    forall k :: 0 <= k <= IntervalCount ==> InDateRange(Boundary(today, totalDays, k))
  }

  /** A non-negative period whose start date is a valid date has every window
      boundary between that start and today, so the scraper searches it. */
  lemma InRangePeriodIsSearchable(today: int, totalDays: int)
    requires totalDays >= 0 && InDateRange(today - totalDays) && InDateRange(today)
    ensures WindowDatesValid(today, totalDays)
  {
    var width := totalDays / IntervalCount;
    assert 0 <= 5 * width <= totalDays;
    forall k | 0 <= k <= IntervalCount
      ensures InDateRange(Boundary(today, totalDays, k))
    {
      assert 0 <= k * width <= 5 * width by {
        MulMonotone(k, 5, width);
      }
    }
  }

  lemma MulMonotone(a: int, b: int, c: int)
    requires 0 <= a <= b && c >= 0
    ensures 0 <= a * c <= b * c
  {
  }

  /** A period reaching back before 0001-01-01 fails the date arithmetic. */
  lemma PeriodBeforeDateMinIsInvalid(today: int, totalDays: int)
    requires today - totalDays < MinDay
    ensures !WindowDatesValid(today, totalDays)
  {
    assert !InDateRange(Boundary(today, totalDays, 0));
  }

  // ------------------------------------------------------------ search hits

  /** One row of the discovery table: `Title`, `Link`, `Published_Date`. */
  datatype Article = Article(title: string, link: Url, date: int)

  /** A raw search result. `None` stands for a missing field or, for the
      date, a string that `strptime` rejects. */
  datatype SearchHit = SearchHit(url: Option<Url>, published: Option<int>, title: Option<string>)

  /** The article a search result yields, or `None` when reading it raised
      (missing field, bad date, or the explicit empty-title `ValueError`). */
  function ArticleOf(h: SearchHit): (r: Option<Article>)
    ensures r.Some? ==> r.value.title != ""
  {
    if h.url.Some? && h.published.Some? && h.title.Some? && h.title.value != "" then
      Some(Article(h.title.value, h.url.value, h.published.value))
    else None
  }

  function Collect(hits: seq<SearchHit>): (r: seq<Article>)
    ensures |r| <= |hits|
    ensures forall a :: a in r ==> exists h :: h in hits && ArticleOf(h) == Some(a)
    ensures forall h :: h in hits && ArticleOf(h).Some? ==> ArticleOf(h).value in r
  {
    if |hits| == 0 then []
    else
      var h := hits[|hits| - 1];
      assert hits == hits[..|hits| - 1] + [h];
      Collect(hits[..|hits| - 1]) + (match ArticleOf(h) case Some(a) => [a] case None => [])
  }

  /** `fetch_news_for_interval`: the usable results of one window; a search
      that raised (`None`) yields no rows at all. */
  function FetchInterval(hits: Option<seq<SearchHit>>): (r: seq<Article>)
    ensures forall a :: a in r ==> a.title != ""
    ensures hits.None? ==> r == []
    ensures hits.Some? ==> |r| <= |hits.value|
    ensures hits.Some? ==> forall h :: h in hits.value && ArticleOf(h).Some? ==> ArticleOf(h).value in r
    ensures hits.Some? ==> forall a :: a in r ==> exists h :: h in hits.value && ArticleOf(h) == Some(a)
  {
    match hits
    case None => []
    case Some(hs) =>
      var r := Collect(hs);
      assert forall a :: a in r ==> a.title != "" by {
        forall a | a in r ensures a.title != "" {
          var h :| h in hs && ArticleOf(h) == Some(a);
        }
      }
      r
  }

  // ------------------------------------------------------------------ merge

  /** The de-duplication key `(Title, Link)`. */
  function Key(a: Article): (string, Url) {
    (a.title, a.link)
  }

  ghost predicate SortedByDate(s: seq<Article>) {
    forall i, j :: 0 <= i < j < |s| ==> s[i].date <= s[j].date
  }

  /** Appending a row no earlier than every other keeps a table sorted. */
  lemma SortedSnoc(s: seq<Article>, x: Article)
    requires SortedByDate(s)
    requires forall i :: 0 <= i < |s| ==> s[i].date <= x.date
    ensures SortedByDate(s + [x])
  {
  }

  function InsertByDate(x: Article, s: seq<Article>): (r: seq<Article>)
    requires SortedByDate(s)
    ensures SortedByDate(r)
    ensures multiset(r) == multiset(s) + multiset{x}
  {
    if |s| == 0 || s[|s| - 1].date <= x.date then
      SortedSnoc(s, x);
      s + [x]
    else
      var s' := s[..|s| - 1];
      var last := s[|s| - 1];
      assert s == s' + [last];
      var r' := InsertByDate(x, s');
      forall i | 0 <= i < |r'| ensures r'[i].date <= last.date {
        assert r'[i] in multiset(s') + multiset{x};
      }
      SortedSnoc(r', last);
      r' + [last]
  }

  /** `sort_values(by="Published_Date")`, as an insertion sort. */
  function SortByDate(s: seq<Article>): (r: seq<Article>)
    ensures SortedByDate(r)
    ensures multiset(r) == multiset(s)
  {
    if |s| == 0 then []
    else
      assert s == s[..|s| - 1] + [s[|s| - 1]];
      InsertByDate(s[|s| - 1], SortByDate(s[..|s| - 1]))
  }

  /** `pd.concat` of the per-window tables, in order. */
  function Concat(tables: seq<seq<Article>>): (r: seq<Article>)
    ensures forall a :: a in r <==> exists t :: t in tables && a in t
  {
    if |tables| == 0 then []
    else
      assert tables == tables[..|tables| - 1] + [tables[|tables| - 1]];
      Concat(tables[..|tables| - 1]) + tables[|tables| - 1]
  }

  /** The concatenation is empty exactly when every table is. */
  lemma ConcatEmpty(tables: seq<seq<Article>>)
    ensures Concat(tables) == [] <==> forall i :: 0 <= i < |tables| ==> tables[i] == []
  {
    if Concat(tables) != [] {
      var a := Concat(tables)[0];
      assert a in Concat(tables);
      var t :| t in tables && a in t;
      var i :| 0 <= i < |tables| && tables[i] == t;
      assert tables[i] != [];
    }
    if exists i :: 0 <= i < |tables| && tables[i] != [] {
      var i :| 0 <= i < |tables| && tables[i] != [];
      var a := tables[i][0];
      assert a in tables[i] && tables[i] in tables;
      assert a in Concat(tables);
    }
  }

  /** A sorted table stays sorted when rows are deleted from it. */
  lemma {:induction false} SubsequenceStaysSorted(a: seq<Article>, b: seq<Article>)
    requires IsSubsequence(a, b)
    requires SortedByDate(b)
    ensures SortedByDate(a)
    decreases |b|
  {
    if |a| > 0 {
      var a' := a[..|a| - 1];
      var b' := b[..|b| - 1];
      assert SortedByDate(b');
      if a[|a| - 1] == b[|b| - 1] && IsSubsequence(a', b') {
        SubsequenceStaysSorted(a', b');
        SubsequenceElements(a', b');
        forall i, j | 0 <= i < j < |a| ensures a[i].date <= a[j].date {
          if j == |a| - 1 {
            assert a[i] in a';
            var k :| 0 <= k < |b'| && b'[k] == a[i];
            assert b[k] == a[i];
          } else {
            assert a[i] == a'[i] && a[j] == a'[j];
          }
        }
      } else {
        SubsequenceStaysSorted(a, b');
      }
    }
  }

  /** The table the scraper returns. With no rows at all, every per-window
      frame is column-less, so the concatenation is too and sorting it by
      `Published_Date` raises; the scraper then returns `pd.DataFrame()`. */
  datatype Frame = Columnless | Table(rows: seq<Article>)

  /** In a date-sorted table, the first row with a key is no later than any
      other row with that key. */
  lemma FirstOfKeyIsEarliest(s: seq<Article>, i: int, b: Article)
    requires SortedByDate(s) && 0 <= i < |s| && IsFirstOfKey(s, Key, i)
    requires b in s && Key(b) == Key(s[i])
    ensures s[i].date <= b.date
  {
    var j :| 0 <= j < |s| && s[j] == b;
    if j < i {
      assert Key(s[j]) != Key(s[i]);
    }
  }

  /** Concatenate, sort by date, drop duplicate `(Title, Link)` pairs. Of
      several copies of one pair, an earliest-dated one is kept. */
  function MergeTables(tables: seq<seq<Article>>): (f: Frame)
    ensures f.Columnless? <==> Concat(tables) == []
    ensures f.Table? ==> SortedByDate(f.rows)
    ensures f.Table? ==> forall i, j :: 0 <= i < j < |f.rows| ==> Key(f.rows[i]) != Key(f.rows[j])
    ensures f.Table? ==> KeysOf(f.rows, Key) == KeysOf(Concat(tables), Key)
    ensures f.Table? ==> forall a :: a in f.rows ==> a in Concat(tables)
    ensures f.Table? ==> forall a, b :: a in f.rows && b in Concat(tables) && Key(a) == Key(b) ==> a.date <= b.date
  {
    var all := Concat(tables);
    if all == [] then Columnless
    else
      var sorted := SortByDate(all);
      var rows := DropDuplicatesBy(sorted, Key);
      SubsequenceStaysSorted(rows, sorted);
      SubsequenceElements(rows, sorted);
      assert forall a :: a in sorted <==> a in all by {
        assert forall a :: a in sorted <==> a in multiset(sorted);
        assert forall a :: a in all <==> a in multiset(all);
      }
      assert KeysOf(sorted, Key) == KeysOf(all, Key);
      DropDuplicatesKeepsFirst(sorted, Key);
      forall a, b | a in rows && b in all && Key(a) == Key(b) ensures a.date <= b.date {
        var i :| 0 <= i < |sorted| && sorted[i] == a && IsFirstOfKey(sorted, Key, i);
        FirstOfKeyIsEarliest(sorted, i, b);
      }
      Table(rows)
  }

  /** Two copies of one story found in different windows: the earlier-dated
      copy is the one kept, whichever window found it first. */
  lemma EarliestCopyIsKept(late: Article, early: Article)
    requires Key(late) == Key(early) && early.date < late.date
    ensures MergeTables([[late], [early]]) == Table([early])
  {
    var tables := [[late], [early]];
    assert [early] in tables;
    assert early in Concat(tables);
    var rows := MergeTables(tables).rows;
    forall a | a in rows ensures a == early {
      assert a in Concat(tables);
    }
    OnlyCopy(rows, early);
  }

  /** Non-empty rows with distinct keys that all equal one article are that article once. */
  lemma OnlyCopy(rows: seq<Article>, a: Article)
    requires |rows| > 0 && forall b :: b in rows ==> b == a
    requires forall i, j :: 0 <= i < j < |rows| ==> Key(rows[i]) != Key(rows[j])
    ensures rows == [a]
  {
    assert KeysOf(rows, Key) == {Key(a)} by {
      assert rows[0] in rows;
    }
    DistinctKeysCount(rows, Key);
    assert rows[0] in rows;
  }

  /** The five per-window tables, searched in window order. */
  function WindowTables(today: int, days: int, search: Interval -> Option<seq<SearchHit>>): (r: seq<seq<Article>>)
    ensures |r| == IntervalCount
    ensures forall i :: 0 <= i < IntervalCount ==> r[i] == FetchInterval(search(Intervals(today, days)[i]))
    ensures forall a :: a in Concat(r) ==> a.title != ""
  {
    var r := MapSeq(Intervals(today, days), w => FetchInterval(search(w)));
    forall a | a in Concat(r) ensures a.title != "" {
      var t :| t in r && a in t;
      var k :| 0 <= k < |r| && r[k] == t;
    }
    r
  }

  /** Every window's search failed or found no usable article. */
  ghost predicate NothingFound(today: int, days: int, search: Interval -> Option<seq<SearchHit>>) {
    forall i :: 0 <= i < IntervalCount ==> FetchInterval(search(Intervals(today, days)[i])) == []
  }

  /** The article was found by the search of one of the windows. */
  ghost predicate FromWindows(a: Article, today: int, days: int, search: Interval -> Option<seq<SearchHit>>) {
    exists i :: 0 <= i < IntervalCount && a in FetchInterval(search(Intervals(today, days)[i]))
  }

  lemma ConcatOfWindows(today: int, days: int, search: Interval -> Option<seq<SearchHit>>)
    ensures forall a :: a in Concat(WindowTables(today, days, search)) <==> FromWindows(a, today, days, search)
  {
    var tables := WindowTables(today, days, search);
    forall a ensures a in Concat(tables) <==> FromWindows(a, today, days, search) {
      if a in Concat(tables) {
        var t :| t in tables && a in t;
        var i :| 0 <= i < |tables| && tables[i] == t;
        assert a in FetchInterval(search(Intervals(today, days)[i]));
      }
      if FromWindows(a, today, days, search) {
        var i :| 0 <= i < IntervalCount && a in FetchInterval(search(Intervals(today, days)[i]));
        assert tables[i] in tables;
      }
    }
  }

  /** The `(Title, Link)` pairs of a frame; a column-less frame has none. */
  function FrameKeys(f: Frame): set<(string, Url)> {
    match f
    case Columnless => {}
    case Table(rows) => KeysOf(rows, Key)
  }

  /** `news_scraper_RSS_links`: parse the period, search each window, merge.
      A period that does not parse, or whose dates leave the `date` range, is
      caught and yields the empty frame. */
  function Scrape(period: string, today: int, search: Interval -> Option<seq<SearchHit>>): (f: Frame)
    ensures ParsePeriod(period).Err? ==> f.Columnless?
    ensures ParsePeriod(period).Ok? && !WindowDatesValid(today, ParsePeriod(period).value) ==> f.Columnless?
    ensures f.Columnless? <==>
      ParsePeriod(period).Err? || !WindowDatesValid(today, ParsePeriod(period).value) ||
      NothingFound(today, ParsePeriod(period).value, search)
    ensures f.Table? ==> ParsePeriod(period).Ok? && WindowDatesValid(today, ParsePeriod(period).value)
    ensures f.Table? ==> SortedByDate(f.rows)
    ensures f.Table? ==> forall i, j :: 0 <= i < j < |f.rows| ==> Key(f.rows[i]) != Key(f.rows[j])
    ensures f.Table? ==> forall a :: a in f.rows ==> a.title != ""
    ensures f.Table? ==> forall a :: a in f.rows ==> FromWindows(a, today, ParsePeriod(period).value, search)
    ensures f.Table? ==> forall a, b ::
      a in f.rows && FromWindows(b, today, ParsePeriod(period).value, search) && Key(a) == Key(b) ==>
        a.date <= b.date
  {
    match ParsePeriod(period)
    case Err(_) => Columnless
    case Ok(days) =>
      if !WindowDatesValid(today, days) then Columnless
      else
        var tables := WindowTables(today, days, search);
        ConcatEmpty(tables);
        ConcatOfWindows(today, days, search);
        MergeTables(tables)
  }

  /** A well-formed period reaching back before 0001-01-01 (`"1000000d"`
      today) makes `end_dt - timedelta(days=total_days)` overflow; the
      scraper catches it and returns the empty frame without searching. */
  lemma PeriodBeyondDateRangeIsCaught(n: int, today: int, search: Interval -> Option<seq<SearchHit>>)
    requires today - n < MinDay
    ensures Scrape(IntText(n) + "d", today, search) == Columnless
  {
    PeriodRoundTrip(n);
    PeriodBeforeDateMinIsInvalid(today, n);
  }

  lemma ConcatKeys(tables: seq<seq<Article>>)
    ensures forall k :: k in KeysOf(Concat(tables), Key) <==>
      exists i :: 0 <= i < |tables| && k in KeysOf(tables[i], Key)
  {
    forall k
      ensures k in KeysOf(Concat(tables), Key) <==>
        exists i :: 0 <= i < |tables| && k in KeysOf(tables[i], Key)
    {
      if k in KeysOf(Concat(tables), Key) {
        var a :| a in Concat(tables) && Key(a) == k;
        var t :| t in tables && a in t;
        var i :| 0 <= i < |tables| && tables[i] == t;
        assert k in KeysOf(tables[i], Key);
      }
      if exists i :: 0 <= i < |tables| && k in KeysOf(tables[i], Key) {
        var i :| 0 <= i < |tables| && k in KeysOf(tables[i], Key);
        var a :| a in tables[i] && Key(a) == k;
        assert tables[i] in tables;
        assert a in Concat(tables);
      }
    }
  }

  /** For a period that parses and stays within the date range, the result's
      `(Title, Link)` pairs are exactly those found in some window, whichever
      frame comes back. */
  lemma ScrapeKeysAreUnionOfWindows(period: string, today: int, search: Interval -> Option<seq<SearchHit>>)
    requires ParsePeriod(period).Ok? && WindowDatesValid(today, ParsePeriod(period).value)
    ensures forall k :: k in FrameKeys(Scrape(period, today, search)) <==>
      exists i :: 0 <= i < IntervalCount &&
        k in KeysOf(FetchInterval(search(Intervals(today, ParsePeriod(period).value)[i])), Key)
  {
    var tables := WindowTables(today, ParsePeriod(period).value, search);
    ConcatKeys(tables);
  }
}
