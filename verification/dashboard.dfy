/** The selection rules of the dashboard in static/js/scripts.js, as data
    logic: which record the best and worst scores come from, which articles
    a click on a date lists, the order in which the gauge cycles, and which
    dates get an axis tick. Rendering, animation and the floating-point
    averages are not modelled. */
module Dashboard {
  import opened Common

  /** One analysed article as the page receives it. Scores and the story id
      are JSON numbers; none of them is NaN. */
  datatype Sentiment = Sentiment(
    date: int, headline: string, link: string, uniqueId: real,
    positive: real, negative: real, neutral: real)

  function PositiveScore(x: Sentiment): real {
    x.positive
  }

  function NegativeScore(x: Sentiment): real {
    x.negative
  }

  function UniqueId(x: Sentiment): real {
    x.uniqueId
  }

  // -------------------------------------------------------- best and worst

  /** Position `k` holds a maximal score and every later position a strictly
      smaller one: the last of the maximal records. */
  ghost predicate IsLastMax(s: seq<Sentiment>, score: Sentiment -> real, k: int) {
    0 <= k < |s| &&
    (forall i :: 0 <= i < |s| ==> score(s[i]) <= score(s[k])) &&
    (forall i :: k < i < |s| ==> score(s[i]) < score(s[k]))
  }

  /** The reducer `(max, current) => max.score > current.score ? max : current`. */
  function KeepGreater(acc: Sentiment, current: Sentiment, score: Sentiment -> real): Sentiment {
    if score(acc) > score(current) then acc else current
  }

  /** `data.reduce(reducer)` with no initial value: a left fold starting from
      the first record. On an empty array it throws, which is `None` here.
      Because the accumulator is kept only when strictly greater, a tie goes
      to the later record. */
  function Highest(s: seq<Sentiment>, score: Sentiment -> real): (r: Option<Sentiment>)
    ensures r.None? <==> |s| == 0
    ensures r.Some? ==> exists k :: IsLastMax(s, score, k) && s[k] == r.value
    decreases |s|
  {
    if |s| == 0 then None
    else if |s| == 1 then (assert IsLastMax(s, score, 0); Some(s[0]))
    else
      var acc := Highest(s[..|s| - 1], score).value;
      HighestStep(s, score, acc);
      Some(KeepGreater(acc, s[|s| - 1], score))
  }

  /** One step of the fold keeps the accumulator the last maximum so far. */
  lemma HighestStep(s: seq<Sentiment>, score: Sentiment -> real, acc: Sentiment)
    requires |s| >= 2
    requires exists k :: IsLastMax(s[..|s| - 1], score, k) && s[k] == acc
    ensures exists k :: IsLastMax(s, score, k) && s[k] == KeepGreater(acc, s[|s| - 1], score)
  {
    var k' :| IsLastMax(s[..|s| - 1], score, k') && s[k'] == acc;
    if score(acc) > score(s[|s| - 1]) {
      assert IsLastMax(s, score, k');
    } else {
      assert IsLastMax(s, score, |s| - 1);
    }
  }

  /** The contract pins the result down: only one position is the last
      maximum. */
  lemma LastMaxIsUnique(s: seq<Sentiment>, score: Sentiment -> real, k1: int, k2: int)
    requires IsLastMax(s, score, k1) && IsLastMax(s, score, k2)
    ensures k1 == k2
  {
    assert score(s[k1]) == score(s[k2]);
  }

  /** On a tie the later record wins. */
  lemma TieGoesToLater(a: Sentiment, b: Sentiment, score: Sentiment -> real)
    requires score(a) == score(b)
    ensures Highest([a, b], score) == Some(b)
  {
    var k :| IsLastMax([a, b], score, k) && [a, b][k] == Highest([a, b], score).value;
    assert IsLastMax([a, b], score, 1);
    LastMaxIsUnique([a, b], score, k, 1);
  }

  // ------------------------------------------------------------ date lists

  function OnDate(d: int): Sentiment -> bool {
    (x: Sentiment) => x.date == d
  }

  predicate LeansPositive(x: Sentiment) {
    x.positive > x.negative
  }

  predicate LeansNegative(x: Sentiment) {
    x.negative > x.positive
  }

  /** The best-date handler: the positive-leaning records of the best
      record's date, in order, every copy of a repeated record and every
      record of a repeated story included. */
  function BestDayList(data: seq<Sentiment>, best: Sentiment): (r: seq<Sentiment>)
    ensures forall x :: x in r <==> x in data && x.date == best.date && LeansPositive(x)
    ensures forall x :: multiset(r)[x] == if x.date == best.date && LeansPositive(x) then multiset(data)[x] else 0
    ensures IsSubsequence(r, data)
  {
    var forDate := Filter(data, OnDate(best.date));
    FilterCounts(data, OnDate(best.date));
    FilterCounts(forDate, LeansPositive);
    FilterIsSubsequence(data, OnDate(best.date));
    FilterIsSubsequence(forDate, LeansPositive);
    SubsequenceTransitive(Filter(forDate, LeansPositive), forDate, data);
    Filter(forDate, LeansPositive)
  }

  /** The worst-date handler, symmetrically. */
  function WorstDayList(data: seq<Sentiment>, worst: Sentiment): (r: seq<Sentiment>)
    ensures forall x :: x in r <==> x in data && x.date == worst.date && LeansNegative(x)
    ensures forall x :: multiset(r)[x] == if x.date == worst.date && LeansNegative(x) then multiset(data)[x] else 0
    ensures IsSubsequence(r, data)
  {
    var forDate := Filter(data, OnDate(worst.date));
    FilterCounts(data, OnDate(worst.date));
    FilterCounts(forDate, LeansNegative);
    FilterIsSubsequence(data, OnDate(worst.date));
    FilterIsSubsequence(forDate, LeansNegative);
    SubsequenceTransitive(Filter(forDate, LeansNegative), forDate, data);
    Filter(forDate, LeansNegative)
  }

  /** One list of the chart-click handler: the records of the clicked date
      leaning one way, first record per story id. */
  function ClickList(data: seq<Sentiment>, date: int, leans: Sentiment -> bool): seq<Sentiment> {
    DropDuplicatesBy(Filter(Filter(data, OnDate(date)), leans), UniqueId)
  }

  /** The chart-click handler: the records of the clicked date, split into
      positive- and negative-leaning lists with a seen-set of story ids each. */
  method ClassifyClick(data: seq<Sentiment>, date: int) returns (positives: seq<Sentiment>, negatives: seq<Sentiment>)
    ensures positives == ClickList(data, date, LeansPositive)
    ensures negatives == ClickList(data, date, LeansNegative)
  {
    var forDate := Filter(data, OnDate(date));
    positives, negatives := [], [];
    var seenPositive: set<real> := {};
    var seenNegative: set<real> := {};
    ghost var done: seq<Sentiment> := [];
    var i := 0;
    while i < |forDate|
      invariant 0 <= i <= |forDate| && |done| == i
      invariant forall k :: 0 <= k < i ==> done[k] == forDate[k]
      invariant positives == DropDuplicatesBy(Filter(done, LeansPositive), UniqueId)
      invariant negatives == DropDuplicatesBy(Filter(done, LeansNegative), UniqueId)
      invariant seenPositive == KeysOf(positives, UniqueId)
      invariant seenNegative == KeysOf(negatives, UniqueId)
    {
      var x := forDate[i];
      ClickStep(done, x, LeansPositive, positives, seenPositive);
      ClickStep(done, x, LeansNegative, negatives, seenNegative);
      if x.positive > x.negative {
        if x.uniqueId !in seenPositive {
          seenPositive := seenPositive + {x.uniqueId};
          positives := positives + [x];
        }
      } else if x.negative > x.positive {
        if x.uniqueId !in seenNegative {
          seenNegative := seenNegative + {x.uniqueId};
          negatives := negatives + [x];
        }
      }
      forall k | 0 <= k < i + 1 ensures (done + [x])[k] == forDate[k] {
        if k < i {
          assert (done + [x])[k] == done[k];
        }
      }
      done := done + [x];
      i := i + 1;
    }
    assert done == forDate;
  }

  /** One iteration of the click loop on one list: a record leaning the
      list's way with an unseen id is appended and its id marked seen;
      otherwise the list and the seen-set stay as they are. */
  lemma ClickStep(done: seq<Sentiment>, x: Sentiment, leans: Sentiment -> bool, list: seq<Sentiment>, seen: set<real>)
    requires list == DropDuplicatesBy(Filter(done, leans), UniqueId)
    requires seen == KeysOf(list, UniqueId)
    ensures leans(x) && x.uniqueId !in seen ==>
      list + [x] == DropDuplicatesBy(Filter(done + [x], leans), UniqueId) &&
      seen + {x.uniqueId} == KeysOf(list + [x], UniqueId)
    ensures !(leans(x) && x.uniqueId !in seen) ==>
      list == DropDuplicatesBy(Filter(done + [x], leans), UniqueId)
  {
    var before := Filter(done, leans);
    var after := Filter(done + [x], leans);
    FilterSnoc(done, x, leans);
    KeysOfSnoc(list, x, UniqueId);
    if leans(x) {
      assert after == before + [x];
      DropDuplicatesSnoc(before, x, UniqueId);
      assert seen == KeysOf(before, UniqueId);
    } else {
      assert after == before;
    }
  }

  /** What a click lists: records of the clicked date only, each leaning the
      list's way, one record per story id, and every story of the date that
      leans that way represented. */
  lemma ClickListIsOnePerStory(data: seq<Sentiment>, date: int, leans: Sentiment -> bool)
    ensures var r := ClickList(data, date, leans);
      (forall x :: x in r ==> x in data && x.date == date && leans(x)) &&
      (forall i, j :: 0 <= i < j < |r| ==> r[i].uniqueId != r[j].uniqueId) &&
      (forall x :: x in data && x.date == date && leans(x) ==> exists y :: y in r && y.uniqueId == x.uniqueId)
  {
    var forDate := Filter(data, OnDate(date));
    var kept := Filter(forDate, leans);
    var r := DropDuplicatesBy(kept, UniqueId);
    SubsequenceElements(r, kept);
    forall x | x in r ensures x in data && x.date == date && leans(x) {
      assert x in kept;
      assert x in forDate;
    }
    forall i, j | 0 <= i < j < |r| ensures r[i].uniqueId != r[j].uniqueId {
      assert UniqueId(r[i]) != UniqueId(r[j]);
    }
    forall x | x in data && x.date == date && leans(x) ensures exists y :: y in r && y.uniqueId == x.uniqueId {
      assert OnDate(date)(x);
      assert x in forDate;
      assert x in kept;
      assert UniqueId(x) in KeysOf(kept, UniqueId);
      var y :| y in r && UniqueId(y) == UniqueId(x);
    }
  }

  /** The record a click lists for a story is the story's first record of
      that date and lean, in data order. */
  lemma ClickListKeepsFirst(data: seq<Sentiment>, date: int, leans: Sentiment -> bool)
    ensures var kept := Filter(Filter(data, OnDate(date)), leans);
      forall x :: x in ClickList(data, date, leans) <==>
        exists i :: 0 <= i < |kept| && kept[i] == x && IsFirstOfKey(kept, UniqueId, i)
  {
    var kept := Filter(Filter(data, OnDate(date)), leans);
    assert ClickList(data, date, leans) == DropDuplicatesBy(kept, UniqueId);
    DropDuplicatesKeepsFirst(kept, UniqueId);
  }

  /** A click lists a record on at most one side, and a record whose two
      scores are equal on neither. */
  lemma ClickListsAreDisjoint(data: seq<Sentiment>, date: int, x: Sentiment)
    ensures !(x in ClickList(data, date, LeansPositive) && x in ClickList(data, date, LeansNegative))
    ensures x.positive == x.negative ==>
      x !in ClickList(data, date, LeansPositive) && x !in ClickList(data, date, LeansNegative)
  {
    ClickListIsOnePerStory(data, date, LeansPositive);
    ClickListIsOnePerStory(data, date, LeansNegative);
  }

  /** The best-date list does not de-duplicate: two positive records of one
      story on the best date are both listed, while a click on that date
      lists the story once. */
  lemma BestDayListRepeatsStories(a: Sentiment, b: Sentiment)
    requires a != b && a.date == b.date && a.uniqueId == b.uniqueId
    requires LeansPositive(a) && LeansPositive(b)
    ensures BestDayList([a, b], a) == [a, b]
    ensures ClickList([a, b], a.date, LeansPositive) == [a]
  {
    FilterKeepsAll([a, b], OnDate(a.date));
    FilterKeepsAll([a, b], LeansPositive);
    DropDuplicatesOfPair(a, b, UniqueId);
  }

  // ----------------------------------------------------------------- gauge

  /** The sentiment the gauge shows. */
  datatype Gauge = Positive | Negative | Neutral

  /** `updateGauge`: positive, then negative, then neutral, then positive. */
  function NextGauge(g: Gauge): (h: Gauge)
    ensures h != g
  {
    match g
    case Positive => Negative
    case Negative => Neutral
    case Neutral => Positive
  }

  /** The gauge after `n` clicks. */
  function Clicks(g: Gauge, n: nat): Gauge {
    if n == 0 then g else NextGauge(Clicks(g, n - 1))
  }

  /** Three clicks bring the gauge back, and no fewer do. */
  lemma ThreeClicksRestore(g: Gauge)
    ensures Clicks(g, 3) == g
    ensures Clicks(g, 1) != g && Clicks(g, 2) != g
  {
  }

  /** From the default the gauge shows the `n mod 3`-th state of the cycle. */
  lemma {:induction false} GaugeAfterClicks(n: nat)
    ensures Clicks(Positive, n) == [Positive, Negative, Neutral][n % 3]
  {
    if n > 0 {
      GaugeAfterClicks(n - 1);
    }
  }

  // ----------------------------------------------------------------- ticks

  const MaxTicks: nat := 6

  /** `Math.ceil(n / maxTicks)`. */
  function TickInterval(n: nat): (k: nat)
    ensures n > 0 ==> k > 0 && MaxTicks * (k - 1) < n <= MaxTicks * k
    ensures n == 0 ==> k == 0
  {
    (n + MaxTicks - 1) / MaxTicks
  }

  function Range(n: nat): (r: seq<nat>)
    ensures |r| == n
    ensures forall i :: 0 <= i < n ==> r[i] == i
  {
    if n == 0 then [] else Range(n - 1) + [n - 1]
  }

  /** `i % k === 0`; with `k = 0` the remainder is NaN and never equal. */
  function DivisibleBy(k: nat): nat -> bool {
    (i: nat) => k != 0 && i % k == 0
  }

  /** `Math.ceil(n / k)` for positive `k`. */
  function CeilDiv(n: nat, k: nat): nat
    requires k > 0
  {
    (n + k - 1) / k
  }

  lemma {:induction false} MulGrows(d: nat, k: int)
    requires d >= 1 && k > 0
    ensures d * k >= k
  {
    if d > 1 {
      MulGrows(d - 1, k);
      assert d * k == (d - 1) * k + k;
    }
  }

  /** Euclidean division has one quotient and remainder. */
  lemma DivUnique(a: int, k: int, q: int, r: int)
    requires k > 0 && 0 <= r < k && a == q * k + r
    ensures a / k == q && a % k == r
  {
    var q', r' := a / k, a % k;
    assert a == q' * k + r';
    assert (q - q') * k == r' - r;
    if q > q' {
      MulGrows(q - q', k);
    } else if q < q' {
      MulGrows(q' - q, k);
    }
  }

  lemma CeilDivZero(k: nat)
    requires k > 0
    ensures CeilDiv(0, k) == 0
  {
    DivUnique(k - 1, k, 0, k - 1);
  }

  /** One more position adds a tick exactly when it is a multiple of `k`. */
  lemma CeilDivStep(m: nat, k: nat)
    requires k > 0
    ensures CeilDiv(m + 1, k) == CeilDiv(m, k) + (if m % k == 0 then 1 else 0)
  {
    var q, r := m / k, m % k;
    assert m == q * k + r;
    if r == 0 {
      DivUnique(m + k - 1, k, q, k - 1);
      DivUnique(m + k, k, q + 1, 0);
    } else {
      DivUnique(m + k - 1, k, q + 1, r - 1);
      DivUnique(m + k, k, q + 1, r);
    }
  }

  lemma RangeFilterStep(m: nat, p: nat -> bool)
    ensures Filter(Range(m + 1), p) == Filter(Range(m), p) + (if p(m) then [m] else [])
  {
    assert Range(m + 1)[..m] == Range(m);
  }

  /** There are `ceil(n / k)` multiples of `k` below `n`. */
  lemma {:induction false} CountMultiples(n: nat, k: nat)
    requires k > 0
    ensures |Filter(Range(n), DivisibleBy(k))| == CeilDiv(n, k)
  {
    if n == 0 {
      CeilDivZero(k);
    } else {
      CountMultiples(n - 1, k);
      RangeFilterStep(n - 1, DivisibleBy(k));
      CeilDivStep(n - 1, k);
    }
  }

  /** Position 0 is always a multiple. */
  lemma {:induction false} ZeroIsFirstMultiple(n: nat, k: nat)
    requires n > 0 && k > 0
    ensures |Filter(Range(n), DivisibleBy(k))| > 0
    ensures Filter(Range(n), DivisibleBy(k))[0] == 0
  {
    if n == 1 {
      RangeFilterStep(0, DivisibleBy(k));
    } else {
      ZeroIsFirstMultiple(n - 1, k);
      RangeFilterStep(n - 1, DivisibleBy(k));
    }
  }

  /** With the interval `ceil(n / 6)` there are at most six multiples. */
  lemma AtMostSixTicks(n: nat)
    requires n > 0
    ensures CeilDiv(n, TickInterval(n)) <= MaxTicks
  {
    var k := TickInterval(n);
    var c := CeilDiv(n, k);
    assert n + k - 1 == c * k + (n + k - 1) % k;
  }

  lemma RangeMembers(n: nat)
    ensures forall i :: i in Range(n) <==> 0 <= i < n
  {
    forall i | 0 <= i < n ensures i in Range(n) {
      assert Range(n)[i] == i;
    }
  }

  /** The multiples of `k` below `n` are what the filter keeps. */
  lemma MultiplesBelow(n: nat, k: nat)
    requires k > 0
    ensures forall i: nat :: i in Filter<nat>(Range(n), DivisibleBy(k)) <==> i < n && i % k == 0
  {
    RangeMembers(n);
    var idx := Filter<nat>(Range(n), DivisibleBy(k));
    forall i: nat ensures i in idx <==> i < n && i % k == 0 {
      if i < n && i % k == 0 {
        assert i in Range(n) && DivisibleBy(k)(i);
      }
      if i in idx {
        assert DivisibleBy(k)(i);
      }
    }
  }

  lemma TickPositionFacts(n: nat)
    requires n > 0
    ensures var idx := Filter<nat>(Range(n), DivisibleBy(TickInterval(n)));
      (forall i: nat :: i in idx <==> i < n && i % TickInterval(n) == 0) &&
      |idx| <= MaxTicks &&
      |idx| > 0 && idx[0] == 0
  {
    var k := TickInterval(n);
    CountMultiples(n, k);
    AtMostSixTicks(n);
    ZeroIsFirstMultiple(n, k);
    MultiplesBelow(n, k);
  }

  /** The positions of the dates that get a tick. */
  function TickPositions(n: nat): (idx: seq<nat>)
    ensures n == 0 ==> idx == []
    ensures n > 0 ==> forall i: nat :: i in idx <==> i < n && i % TickInterval(n) == 0
    ensures forall j :: 0 <= j < |idx| ==> idx[j] < n
    ensures |idx| <= MaxTicks
    ensures n > 0 ==> |idx| > 0 && idx[0] == 0
  {
    if n == 0 then []
    else
      TickPositionFacts(n);
      var idx := Filter<nat>(Range(n), DivisibleBy(TickInterval(n)));
      assert forall j :: 0 <= j < |idx| ==> idx[j] in idx;
      idx
  }

  lemma SampledDates(dates: seq<int>, r: seq<int>)
    requires var idx := TickPositions(|dates|);
      |r| == |idx| && forall j :: 0 <= j < |r| ==> r[j] == dates[idx[j]]
    ensures |dates| > 0 ==> forall i :: 0 <= i < |dates| && i % TickInterval(|dates|) == 0 ==> dates[i] in r
    ensures |dates| > 0 ==> forall t :: t in r ==> exists i :: 0 <= i < |dates| && i % TickInterval(|dates|) == 0 && dates[i] == t
  {
    var idx := TickPositions(|dates|);
    if |dates| > 0 {
      forall i | 0 <= i < |dates| && i % TickInterval(|dates|) == 0 ensures dates[i] in r {
        assert i in idx;
        var j :| 0 <= j < |idx| && idx[j] == i;
        assert r[j] == dates[i];
      }
      forall t | t in r
        ensures exists i :: 0 <= i < |dates| && i % TickInterval(|dates|) == 0 && dates[i] == t
      {
        var j :| 0 <= j < |r| && r[j] == t;
        assert idx[j] in idx;
      }
    }
  }

  /** `data.filter((_, i) => i % tickInterval === 0).map(d => d.date)`: at
      most six ticks, the first date always among them, and exactly the dates
      at multiples of the interval. */
  function Ticks(dates: seq<int>): (r: seq<int>)
    ensures |r| <= MaxTicks
    ensures |dates| > 0 ==> |r| > 0 && r[0] == dates[0]
    ensures |dates| > 0 ==> forall i :: 0 <= i < |dates| && i % TickInterval(|dates|) == 0 ==> dates[i] in r
    ensures |dates| > 0 ==> forall t :: t in r ==> exists i :: 0 <= i < |dates| && i % TickInterval(|dates|) == 0 && dates[i] == t
  {
    var idx := TickPositions(|dates|);
    var r := seq(|idx|, j requires 0 <= j < |idx| => dates[idx[j]]);
    SampledDates(dates, r);
    r
  }
}
