/** Redirect-link resolution, in the two variants the repository carries:
    the worker pool of utils/playwright_rssLinksResolver_optimized.py and the
    semaphore-bounded task per link of utils/playwright_rssLinksResolver.py
    (the one the web route uses). The browser is abstracted into what one
    navigation lets the resolver observe; clocks become a wait budget. */
module Resolver {
  import opened Common

  /** What navigating to one link lets the resolver observe.
      `urlAfter(j)` is the page URL read after `j` polling waits (`j = 0`: right
      after `goto`); `budget` is the number of waits after which the elapsed
      time exceeds `max_wait`. `NavigationFailed` stands for any exception
      while launching, navigating or closing. */
  datatype Navigation =
    | NavigationFailed
    | Loaded(urlAfter: nat -> Url, budget: nat)

  /** The wait count at which polling stops: the first `j` whose URL has left
      the aggregator, or the first wait after which the budget is exceeded.
      The time check follows a wait, so at least one wait happens while the
      URL is still the aggregator's. Both variants follow this rule. */
  function StopAfter(urlAfter: nat -> Url, budget: nat, j: nat): (k: nat)
    ensures j <= k
    ensures forall i :: j <= i < k ==> IsAggregator(urlAfter(i))
    ensures !IsAggregator(urlAfter(k)) || k >= budget
    ensures k > j ==> k <= budget || k == j + 1
    ensures !IsAggregator(urlAfter(j)) ==> k == j
    decreases budget - j
  {
    if !IsAggregator(urlAfter(j)) then j
    else if j + 1 >= budget then j + 1
    else StopAfter(urlAfter, budget, j + 1)
  }

  /** Polling ends within the budget (or after the single mandatory wait). */
  lemma PollingIsBounded(urlAfter: nat -> Url, budget: nat)
    ensures StopAfter(urlAfter, budget, 0) <= if budget == 0 then 1 else budget
  {
  }

  /** The URL observed when polling stops. */
  function FinalUrl(urlAfter: nat -> Url, budget: nat): Url {
    urlAfter(StopAfter(urlAfter, budget, 0))
  }

  /** Worker-pool variant (`_fetch_links`): a final URL still under the
      aggregator prefix is recorded as unresolved. */
  function PoolOutcome(nav: Navigation): (r: Option<Url>)
    ensures r.Some? ==> !IsAggregator(r.value)
    ensures r.Some? ==> nav.Loaded? && r.value == FinalUrl(nav.urlAfter, nav.budget)
    ensures nav.Loaded? && !IsAggregator(FinalUrl(nav.urlAfter, nav.budget)) ==> r.Some?
  {
    match nav
    case NavigationFailed => None
    case Loaded(urlAfter, budget) =>
      var u := FinalUrl(urlAfter, budget);
      if IsAggregator(u) then None else Some(u)
  }

  /** Semaphore variant (`_fetch_single_link`): the last observed URL is
      returned as it is, even when it still carries the aggregator prefix. */
  function SemaphoreOutcome(nav: Navigation): (r: Option<Url>)
    ensures r.None? <==> nav.NavigationFailed?
    ensures r.Some? ==> r.value == FinalUrl(nav.urlAfter, nav.budget)
  {
    match nav
    case NavigationFailed => None
    case Loaded(urlAfter, budget) => Some(FinalUrl(urlAfter, budget))
  }

  /** The one difference between the variants: the pool turns a final
      aggregator URL into `None`, the semaphore version hands it on. */
  lemma VariantsDifferOnlyOnAggregatorUrls(nav: Navigation)
    ensures PoolOutcome(nav) ==
      (if SemaphoreOutcome(nav).Some? && IsAggregator(SemaphoreOutcome(nav).value)
       then None else SemaphoreOutcome(nav))
  {
  }

  /** A page whose redirect never completes: the pool reports failure, the
      semaphore version reports the aggregator URL itself. */
  lemma NeverRedirecting(urlAfter: nat -> Url, budget: nat)
    requires forall j :: IsAggregator(urlAfter(j))
    ensures PoolOutcome(Loaded(urlAfter, budget)) == None
    ensures SemaphoreOutcome(Loaded(urlAfter, budget)).Some?
    ensures IsAggregator(SemaphoreOutcome(Loaded(urlAfter, budget)).value)
  {
  }

  /** Idempotence: a link that is already a destination URL (the page stays on
      it) resolves to itself in both variants, without waiting. */
  lemma AlreadyResolvedIsKept(link: Url, budget: nat)
    requires !IsAggregator(link)
    ensures PoolOutcome(Loaded(_ => link, budget)) == Some(link)
    ensures SemaphoreOutcome(Loaded(_ => link, budget)) == Some(link)
  {
  }

  // ------------------------------------------------------------ worker pool

  /** The worker ids `0 .. count - 1`. */
  function Workers(count: nat): (ws: set<nat>)
    ensures forall w: nat :: w in ws <==> w < count
    ensures |ws| == count
  {
    if count == 0 then {}
    else
      var ws := Workers(count - 1) + {count - 1};
      assert count - 1 !in Workers(count - 1);
      ws
  }

  /** The end of `resolve_links` of the worker pool: after `queue.join()`
      one `None` per worker is queued, and each is taken by a worker still
      running, which then exits. Every worker exits exactly once. */
  method SignalWorkers(maxPages: nat) returns (exited: set<nat>)
    ensures exited == Workers(maxPages)
  {
    var all := Workers(maxPages);
    var running := all;
    exited := {};
    var signals := 0;
    while signals < maxPages
      invariant 0 <= signals <= maxPages
      invariant running !! exited && running + exited == all
      invariant |exited| == signals
    {
      assert |running| == |all| - |exited|;
      var w :| w in running;
      running, exited := running - {w}, exited + {w};
      signals := signals + 1;
    }
    assert |running| == 0;
  }

  /** `resolve_links` of the worker pool, with the workers' interleaving
      collapsed into a sequential FIFO drain of the queue. The queue first
      holds every link; each is taken by some worker, writes exactly one
      entry and calls `task_done` once, whether navigation failed or not.
      With no worker at all, `queue.join()` never returns unless there is
      nothing to join. */
  method ResolveWithWorkerPool(links: seq<Url>, maxPages: nat, navigate: Url -> Navigation)
    returns (results: map<Url, Option<Url>>, tasksDone: nat, exited: set<nat>)
    requires maxPages > 0 || |links| == 0
    ensures results.Keys == set l | l in links
    ensures forall l :: l in results ==> results[l] == PoolOutcome(navigate(l))
    ensures forall l :: l in results && results[l].Some? ==> !IsAggregator(results[l].value)
    ensures tasksDone == |links|
    ensures exited == Workers(maxPages)
  {
    results, tasksDone := map[], 0;
    var k := 0;
    while k < |links|
      invariant 0 <= k <= |links|
      invariant forall l :: l in results <==> l in links[..k]
      invariant forall l :: l in results ==> results[l] == PoolOutcome(navigate(l))
      invariant tasksDone == k
    {
      var link := links[k];
      results := results[link := PoolOutcome(navigate(link))];
      tasksDone := tasksDone + 1;
      assert links[..k + 1] == links[..k] + [link];
      k := k + 1;
    }
    assert links[..k] == links;
    assert results.Keys == set l | l in links;
    exited := SignalWorkers(maxPages);
  }

  // -------------------------------------------------------- semaphore tasks

  /** `resolve_links` of the semaphore variant: one task per link, gathered in
      input order and zipped back onto the links. */
  function ResolveWithSemaphore(links: seq<Url>, navigate: Url -> Navigation): (r: map<Url, Option<Url>>)
    ensures r.Keys == set l | l in links
    ensures forall l :: l in r ==> r[l] == SemaphoreOutcome(navigate(l))
  {
    ZipToMap(links, MapSeq(links, l => SemaphoreOutcome(navigate(l))))
  }

  /** The state of `asyncio.Semaphore(limit)` around `bounded_fetch`: the
      tasks holding a permit and the tasks queued for one, in arrival order. */
  datatype Admission = Admission(inside: set<nat>, waiting: seq<nat>)

  datatype TaskEvent = Arrive(task: nat) | Finish(task: nat)

  /** One event: an arriving task enters only while a permit is free and
      nobody queues before it; a finishing task hands its permit to the first
      queued task. */
  function Step(s: Admission, limit: nat, e: TaskEvent): Admission {
    match e
    case Arrive(t) =>
      if |s.inside| < limit && s.waiting == [] then Admission(s.inside + {t}, s.waiting)
      else Admission(s.inside, s.waiting + [t])
    case Finish(t) =>
      if t !in s.inside then s
      else if s.waiting == [] then Admission(s.inside - {t}, s.waiting)
      else Admission(s.inside - {t} + {s.waiting[0]}, s.waiting[1..])
  }

  function Run(s: Admission, limit: nat, events: seq<TaskEvent>): Admission
    decreases |events|
  {
    if |events| == 0 then s else Run(Step(s, limit, events[0]), limit, events[1..])
  }

  /** At most `max_concurrent_tasks` fetches hold a permit at any time. */
  lemma {:induction false} AdmissionBounded(s: Admission, limit: nat, events: seq<TaskEvent>)
    requires |s.inside| <= limit
    ensures |Run(s, limit, events).inside| <= limit
    decreases |events|
  {
    if |events| > 0 {
      var s' := Step(s, limit, events[0]);
      if events[0].Finish? {
        var t := events[0].task;
        if t in s.inside && s.waiting != [] {
          assert |s.inside - {t}| == |s.inside| - 1;
          assert |s.inside - {t} + {s.waiting[0]}| <= |s.inside - {t}| + 1;
        }
      }
      AdmissionBounded(s', limit, events[1..]);
    }
  }
}
