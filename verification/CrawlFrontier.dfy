/** The crawl's bookkeeping, as values: the FIFO queue, the discovered set, the
    one-retry set and the recorded outcomes, with the steps the crawl loop takes
    on them (audit_engine/crawler.py:779-805, 837-934). */
module CrawlFrontier {
  import opened Outcomes
  import opened Sequences

  datatype Entry = Entry(url: string, depth: nat)

  /** A throttle or bot-protection answer. */
  datatype Challenge = Challenge(kind: ChallengeKind, retryAfter: Option<nat>)

  datatype ChallengeKind = RateLimited | AccessDenied | BotChallenge

  datatype Page = Page(
    requested: string, final: string, status: int, links: seq<string>,
    redirects: seq<string>, challenge: Option<Challenge>)

  datatype FailureCode = FetchFailed | ParseFailed | ChallengeResponse

  datatype Failure = Failure(url: string, code: FailureCode, challenge: Option<Challenge>)

  datatype Frontier = Frontier(
    queue: seq<Entry>, discovered: set<string>, retried: set<string>,
    pages: seq<Page>, failures: seq<Failure>)

  // ------------------------------------------------------------- the steps

  /** Appends each link not yet discovered, at the given depth. */
  function Enqueue(f: Frontier, links: seq<string>, depth: nat): Frontier {
    if links == [] then f
    else
      var n := |links| - 1;
      var g := Enqueue(f, links[..n], depth);
      if links[n] in g.discovered then g
      else g.(discovered := g.discovered + {links[n]}, queue := g.queue + [Entry(links[n], depth)])
  }

  /** The queue of the first crawl loop: every seed once, at depth 0. */
  function Seeded(seeds: seq<string>): Frontier {
    Enqueue(Frontier([], {}, {}, [], []), seeds, 0)
  }

  function Pop(f: Frontier): Frontier
    requires f.queue != []
  {
    f.(queue := f.queue[1..])
  }

  /** The popped URL goes back to the end of the queue, once. */
  function Requeue(f: Frontier): Frontier
    requires f.queue != []
  {
    Pop(f).(queue := f.queue[1..] + [f.queue[0]], retried := f.retried + {f.queue[0].url})
  }

  /** The popped URL's fetch failed. */
  function Drop(f: Frontier, failure: Failure): Frontier
    requires f.queue != []
  {
    Pop(f).(failures := f.failures + [failure])
  }

  /** The popped URL answered with a challenge: a page without content, and a
      failure. */
  function Quarantine(f: Frontier, page: Page, failure: Failure): Frontier
    requires f.queue != []
  {
    Pop(f).(pages := f.pages + [page], failures := f.failures + [failure])
  }

  /** The popped URL was read; `parseFailure` is empty or the one parse failure. */
  function Visit(f: Frontier, page: Page, parseFailure: seq<Failure>, maxDepth: nat): Frontier
    requires f.queue != []
  {
    var read := Pop(f).(pages := f.pages + [page], failures := f.failures + parseFailure);
    if f.queue[0].depth < maxDepth then Enqueue(read, page.links, f.queue[0].depth + 1) else read
  }

  // ---------------------------------------------------------- conservation

  ghost function Queued(queue: seq<Entry>): set<string> {
    set e | e in queue :: e.url
  }

  ghost function Settled(f: Frontier): set<string> {
    (set p | p in f.pages :: p.requested) + (set x | x in f.failures :: x.url)
  }

  ghost predicate DistinctUrls(queue: seq<Entry>) {
    forall i, j :: 0 <= i < j < |queue| ==> queue[i].url != queue[j].url
  }

  ghost predicate DistinctPages(pages: seq<Page>) {
    forall i, j :: 0 <= i < j < |pages| ==> pages[i].requested != pages[j].requested
  }

  /** Every discovered URL is either settled or queued exactly once, and has been
      tried once if settled plus once if retried. */
  ghost predicate Conserved(f: Frontier, tried: multiset<string>) {
    && DistinctUrls(f.queue) && DistinctPages(f.pages)
    && Queued(f.queue) !! Settled(f)
    && f.discovered == Queued(f.queue) + Settled(f)
    && f.retried <= f.discovered
    && (forall u :: u in f.discovered ==>
          tried[u] == (if u in Settled(f) then 1 else 0) + (if u in f.retried then 1 else 0))
    && (forall u :: u !in f.discovered ==> tried[u] == 0)
  }

  lemma PopSplitsTheQueue(f: Frontier)
    requires f.queue != [] && DistinctUrls(f.queue)
    ensures Queued(f.queue) == {f.queue[0].url} + Queued(f.queue[1..])
    ensures f.queue[0].url !in Queued(f.queue[1..])
    ensures DistinctUrls(f.queue[1..])
  {
    assert f.queue == [f.queue[0]] + f.queue[1..];
  }

  lemma QueuedGrows(queue: seq<Entry>, e: Entry)
    ensures Queued(queue + [e]) == Queued(queue) + {e.url}
    ensures DistinctUrls(queue) && e.url !in Queued(queue) ==> DistinctUrls(queue + [e])
  {
    assert forall i :: 0 <= i < |queue| ==> queue[i] in queue;
  }

  lemma RequeueConserves(f: Frontier, tried: multiset<string>)
    requires f.queue != [] && Conserved(f, tried) && f.queue[0].url !in f.retried
    ensures Conserved(Requeue(f), tried + multiset{f.queue[0].url})
  {
    PopSplitsTheQueue(f);
    QueuedGrows(f.queue[1..], f.queue[0]);
    assert Settled(Requeue(f)) == Settled(f);
  }

  lemma SettledGrows(f: Frontier, g: Frontier, url: string, page: seq<Page>, failure: seq<Failure>)
    requires g.pages == f.pages + page && g.failures == f.failures + failure
    requires |page| + |failure| > 0
    requires forall p :: p in page ==> p.requested == url
    requires forall x :: x in failure ==> x.url == url
    ensures Settled(g) == Settled(f) + {url}
  {
    forall u | u in Settled(f) + {url}
      ensures u in Settled(g)
    {
      if u == url {
        if |page| > 0 { assert page[0] in g.pages; } else { assert failure[0] in g.failures; }
      } else {
        assert forall p :: p in f.pages ==> p in g.pages;
        assert forall x :: x in f.failures ==> x in g.failures;
      }
    }
  }

  /** Settling the popped URL, with at most one page. */
  lemma SettleConserves(f: Frontier, g: Frontier, tried: multiset<string>, page: seq<Page>, failure: seq<Failure>)
    requires f.queue != [] && Conserved(f, tried)
    requires g == Pop(f).(pages := f.pages + page, failures := f.failures + failure)
    requires |page| <= 1 && |page| + |failure| > 0
    requires forall p :: p in page ==> p.requested == f.queue[0].url
    requires forall x :: x in failure ==> x.url == f.queue[0].url
    ensures Conserved(g, tried + multiset{f.queue[0].url})
  {
    var url := f.queue[0].url;
    PopSplitsTheQueue(f);
    SettledGrows(f, g, url, page, failure);
    assert url in Queued(f.queue) && url !in Settled(f);
    assert forall p :: p in f.pages ==> p.requested in Settled(f);
    assert forall i :: 0 <= i < |f.pages| ==> f.pages[i] in f.pages;
  }

  lemma {:induction false} EnqueueConserves(f: Frontier, links: seq<string>, depth: nat, tried: multiset<string>)
    requires Conserved(f, tried)
    ensures Conserved(Enqueue(f, links, depth), tried)
    ensures Enqueue(f, links, depth).pages == f.pages && Enqueue(f, links, depth).failures == f.failures
    ensures Enqueue(f, links, depth).retried == f.retried
    ensures Settled(Enqueue(f, links, depth)) == Settled(f)
  {
    if links != [] {
      var n := |links| - 1;
      EnqueueConserves(f, links[..n], depth, tried);
      var g := Enqueue(f, links[..n], depth);
      QueuedGrows(g.queue, Entry(links[n], depth));
    }
  }

  lemma SeededConserves(seeds: seq<string>)
    ensures Conserved(Seeded(seeds), multiset{})
  {
    EnqueueConserves(Frontier([], {}, {}, [], []), seeds, 0, multiset{});
  }

  lemma ReadConserves(f: Frontier, page: Page, parseFailure: seq<Failure>, tried: multiset<string>)
    requires f.queue != [] && Conserved(f, tried) && page.requested == f.queue[0].url
    requires forall x :: x in parseFailure ==> x.url == f.queue[0].url
    ensures Conserved(Pop(f).(pages := f.pages + [page], failures := f.failures + parseFailure),
                      tried + multiset{f.queue[0].url})
  {
    SettleConserves(f, Pop(f).(pages := f.pages + [page], failures := f.failures + parseFailure),
                    tried, [page], parseFailure);
  }

  lemma VisitConserves(f: Frontier, page: Page, parseFailure: seq<Failure>, maxDepth: nat, tried: multiset<string>)
    requires f.queue != [] && Conserved(f, tried) && page.requested == f.queue[0].url
    requires forall x :: x in parseFailure ==> x.url == f.queue[0].url
    ensures Conserved(Visit(f, page, parseFailure, maxDepth), tried + multiset{f.queue[0].url})
  {
    var read := Pop(f).(pages := f.pages + [page], failures := f.failures + parseFailure);
    var more := tried + multiset{f.queue[0].url};
    ReadConserves(f, page, parseFailure, tried);
    if f.queue[0].depth < maxDepth { EnqueueConserves(read, page.links, f.queue[0].depth + 1, more); }
  }

  // ------------------------------------------------ link paths and distance

  /** Some returned page for `u` links to `v`. */
  ghost predicate LinksTo(pages: seq<Page>, u: string, v: string) {
    exists p :: p in pages && p.requested == u && v in p.links
  }

  ghost predicate LinkPath(pages: seq<Page>, seeds: seq<string>, path: seq<string>) {
    && |path| > 0 && path[0] in seeds
    && (forall k :: 0 < k < |path| ==> LinksTo(pages, path[k - 1], path[k]))
  }

  /** A path of exactly `n` links leads from a seed to `v`. */
  ghost predicate ReachedIn(pages: seq<Page>, seeds: seq<string>, v: string, n: nat) {
    exists path :: LinkPath(pages, seeds, path) && path[|path| - 1] == v && |path| == n + 1
  }

  lemma MorePagesKeepPaths(pages: seq<Page>, more: seq<Page>, seeds: seq<string>, v: string, n: nat)
    requires ReachedIn(pages, seeds, v, n)
    ensures ReachedIn(pages + more, seeds, v, n)
  {
    var path :| LinkPath(pages, seeds, path) && path[|path| - 1] == v && |path| == n + 1;
    forall k | 0 < k < |path|
      ensures LinksTo(pages + more, path[k - 1], path[k])
    {
      assert LinksTo(pages, path[k - 1], path[k]);
      var p :| p in pages && p.requested == path[k - 1] && path[k] in p.links;
      assert p in pages + more;
    }
    assert LinkPath(pages + more, seeds, path);
  }

  lemma OneLinkFurther(pages: seq<Page>, seeds: seq<string>, u: string, v: string, n: nat)
    requires ReachedIn(pages, seeds, u, n) && LinksTo(pages, u, v)
    ensures ReachedIn(pages, seeds, v, n + 1)
  {
    var path :| LinkPath(pages, seeds, path) && path[|path| - 1] == u && |path| == n + 1;
    assert LinkPath(pages, seeds, path + [v]);
  }

  /** The depth at which each URL was discovered; it exists only in the proof. */
  ghost function Deepen(depthOf: map<string, nat>, links: seq<string>, depth: nat): map<string, nat> {
    if links == [] then depthOf
    else
      var n := |links| - 1;
      var deeper := Deepen(depthOf, links[..n], depth);
      if links[n] in deeper then deeper else deeper[links[n] := depth]
  }

  lemma {:induction false} DeepenAddsLinks(depthOf: map<string, nat>, links: seq<string>, depth: nat)
    ensures forall v :: v in Deepen(depthOf, links, depth) <==> v in depthOf || v in links
    ensures forall v :: v in depthOf ==> Deepen(depthOf, links, depth)[v] == depthOf[v]
    ensures forall v :: v in links && v !in depthOf ==> Deepen(depthOf, links, depth)[v] == depth
  {
    if links != [] {
      var n := |links| - 1;
      DeepenAddsLinks(depthOf, links[..n], depth);
      assert links == links[..n] + [links[n]];
    }
  }

  /** Every discovered URL has a depth, and queue entries carry it. */
  ghost predicate DepthsTrack(f: Frontier, depthOf: map<string, nat>) {
    && depthOf.Keys == f.discovered
    && (forall e :: e in f.queue ==> e.url in depthOf && depthOf[e.url] == e.depth)
  }

  /** What holds of depths in every crawl: a depth is the length of a real link
      path from a seed, and within bounds. */
  ghost predicate DepthsAreReal(f: Frontier, seeds: seq<string>, depthOf: map<string, nat>, maxDepth: nat) {
    && DepthsTrack(f, depthOf)
    && (forall u :: u in depthOf ==> depthOf[u] <= maxDepth && ReachedIn(f.pages, seeds, u, depthOf[u]))
  }

  /** What `Enqueue` adds: a tail of entries at the given depth, one for each
      link that was not discovered. */
  lemma {:induction false} EnqueueAddsATail(f: Frontier, links: seq<string>, depth: nat)
    ensures var g := Enqueue(f, links, depth);
      && g.pages == f.pages && g.failures == f.failures && g.retried == f.retried
      && g.discovered == f.discovered + Elements(links)
      && |f.queue| <= |g.queue| && g.queue[..|f.queue|] == f.queue
      && (forall i :: |f.queue| <= i < |g.queue| ==>
            g.queue[i].depth == depth && g.queue[i].url in links && g.queue[i].url !in f.discovered)
  {
    if links != [] {
      var n := |links| - 1;
      EnqueueAddsATail(f, links[..n], depth);
      assert links == links[..n] + [links[n]];
    }
  }

  lemma {:induction false} SeededDepthsAreReal(seeds: seq<string>, maxDepth: nat)
    ensures DepthsAreReal(Seeded(seeds), seeds, Deepen(map[], seeds, 0), maxDepth)
  {
    DeepenAddsLinks(map[], seeds, 0);
    EnqueueAddsATail(Frontier([], {}, {}, [], []), seeds, 0);
    forall u | u in seeds
      ensures ReachedIn([], seeds, u, 0)
    {
      assert LinkPath([], seeds, [u]);
    }
  }

  lemma SettleKeepsDepths(f: Frontier, g: Frontier, seeds: seq<string>, depthOf: map<string, nat>, maxDepth: nat,
                          page: seq<Page>)
    requires f.queue != [] && DepthsAreReal(f, seeds, depthOf, maxDepth)
    requires g.queue == f.queue[1..] || g.queue == f.queue[1..] + [f.queue[0]]
    requires g.discovered == f.discovered && g.pages == f.pages + page
    ensures DepthsAreReal(g, seeds, depthOf, maxDepth)
  {
    forall u | u in f.discovered
      ensures ReachedIn(g.pages, seeds, u, depthOf[u])
    {
      MorePagesKeepPaths(f.pages, page, seeds, u, depthOf[u]);
    }
  }

  lemma {:induction false} EnqueueKeepsTrack(f: Frontier, depthOf: map<string, nat>, links: seq<string>, depth: nat)
    requires DepthsTrack(f, depthOf)
    ensures DepthsTrack(Enqueue(f, links, depth), Deepen(depthOf, links, depth))
  {
    var g := Enqueue(f, links, depth);
    DeepenAddsLinks(depthOf, links, depth);
    EnqueueAddsATail(f, links, depth);
    forall e | e in g.queue
      ensures e.url in g.discovered && Deepen(depthOf, links, depth)[e.url] == e.depth
    {
      var i :| 0 <= i < |g.queue| && g.queue[i] == e;
      if i < |f.queue| {
        assert f.queue[i] == g.queue[..|f.queue|][i] == e;
        assert e in f.queue;
      }
    }
  }

  lemma EnqueueKeepsPaths(pages: seq<Page>, seeds: seq<string>, depthOf: map<string, nat>,
                          u: string, links: seq<string>, v: string)
    requires u in depthOf && ReachedIn(pages, seeds, u, depthOf[u])
    requires v in depthOf ==> ReachedIn(pages, seeds, v, depthOf[v])
    requires v in Deepen(depthOf, links, depthOf[u] + 1) && (v in links ==> LinksTo(pages, u, v))
    ensures ReachedIn(pages, seeds, v, Deepen(depthOf, links, depthOf[u] + 1)[v])
  {
    DeepenAddsLinks(depthOf, links, depthOf[u] + 1);
    if v !in depthOf { OneLinkFurther(pages, seeds, u, v, depthOf[u]); }
  }

  lemma EnqueueKeepsDepths(f: Frontier, seeds: seq<string>, depthOf: map<string, nat>, maxDepth: nat,
                           u: string, links: seq<string>)
    requires DepthsAreReal(f, seeds, depthOf, maxDepth)
    requires u in f.discovered && depthOf[u] < maxDepth && forall v :: v in links ==> LinksTo(f.pages, u, v)
    ensures DepthsAreReal(Enqueue(f, links, depthOf[u] + 1), seeds, Deepen(depthOf, links, depthOf[u] + 1), maxDepth)
  {
    var g := Enqueue(f, links, depthOf[u] + 1);
    var deeper := Deepen(depthOf, links, depthOf[u] + 1);
    EnqueueAddsATail(f, links, depthOf[u] + 1);
    EnqueueKeepsTrack(f, depthOf, links, depthOf[u] + 1);
    DeepenAddsLinks(depthOf, links, depthOf[u] + 1);
    forall v | v in deeper
      ensures deeper[v] <= maxDepth && ReachedIn(g.pages, seeds, v, deeper[v])
    {
      EnqueueKeepsPaths(f.pages, seeds, depthOf, u, links, v);
    }
  }

  ghost function DepthsAfterVisit(f: Frontier, page: Page, depthOf: map<string, nat>, maxDepth: nat): map<string, nat>
    requires f.queue != []
  {
    if f.queue[0].depth < maxDepth then Deepen(depthOf, page.links, f.queue[0].depth + 1) else depthOf
  }

  lemma VisitKeepsDepths(f: Frontier, page: Page, parseFailure: seq<Failure>, seeds: seq<string>,
                         depthOf: map<string, nat>, maxDepth: nat)
    requires f.queue != [] && DepthsAreReal(f, seeds, depthOf, maxDepth) && page.requested == f.queue[0].url
    ensures DepthsAreReal(Visit(f, page, parseFailure, maxDepth), seeds,
                          DepthsAfterVisit(f, page, depthOf, maxDepth), maxDepth)
  {
    var read := Pop(f).(pages := f.pages + [page], failures := f.failures + parseFailure);
    SettleKeepsDepths(f, read, seeds, depthOf, maxDepth, [page]);
    assert page in read.pages;
    assert f.queue[0] in f.queue;
    if f.queue[0].depth < maxDepth {
      EnqueueKeepsDepths(read, seeds, depthOf, maxDepth, page.requested, page.links);
    }
  }

  // ------------------------------------------ breadth-first without requeues

  /** Queue depths are sorted and span at most one level, settled URLs are no
      deeper than the queue's head, and no followed link jumps a level. */
  ghost predicate Layered(f: Frontier, seeds: seq<string>, depthOf: map<string, nat>, maxDepth: nat) {
    && LayeredQueue(f.queue)
    && (forall u :: u in Settled(f) && u in depthOf && f.queue != [] ==> depthOf[u] <= f.queue[0].depth)
    && (forall u :: u in seeds ==> u in depthOf && depthOf[u] == 0)
    && (forall p :: p in f.pages ==> LinksStep(p, depthOf, maxDepth))
  }

  ghost predicate LayeredQueue(queue: seq<Entry>) {
    forall i, j :: 0 <= i < j < |queue| ==> queue[i].depth <= queue[j].depth <= queue[i].depth + 1
  }

  /** The page's links, when followed, were discovered at most one level deeper. */
  ghost predicate LinksStep(p: Page, depthOf: map<string, nat>, maxDepth: nat) {
    p.requested in depthOf && depthOf[p.requested] < maxDepth
    ==> forall v :: v in p.links ==> v in depthOf && depthOf[v] <= depthOf[p.requested] + 1
  }

  lemma {:induction false} SeededIsLayered(seeds: seq<string>, maxDepth: nat)
    ensures Layered(Seeded(seeds), seeds, Deepen(map[], seeds, 0), maxDepth)
  {
    DeepenAddsLinks(map[], seeds, 0);
    EnqueueAddsATail(Frontier([], {}, {}, [], []), seeds, 0);
  }

  /** Seeds lie at depth 0, and the links of every page above the depth limit were
      followed. */
  ghost predicate LinksAreFollowed(f: Frontier, seeds: seq<string>, depthOf: map<string, nat>, maxDepth: nat) {
    && (forall u :: u in seeds ==> u in depthOf && depthOf[u] == 0)
    && (forall p :: p in f.pages ==> IsFollowed(p, depthOf, maxDepth))
  }

  ghost predicate IsFollowed(p: Page, depthOf: map<string, nat>, maxDepth: nat) {
    p.requested in depthOf && (depthOf[p.requested] < maxDepth ==> forall v :: v in p.links ==> v in depthOf)
  }

  lemma {:induction false} FollowedSurvives(
    p: Page, depthOf: map<string, nat>, links: seq<string>, depth: nat, maxDepth: nat)
    requires IsFollowed(p, depthOf, maxDepth)
    ensures IsFollowed(p, Deepen(depthOf, links, depth), maxDepth)
  {
    DeepenAddsLinks(depthOf, links, depth);
  }

  lemma {:induction false} SeededIsFollowed(seeds: seq<string>, maxDepth: nat)
    ensures LinksAreFollowed(Seeded(seeds), seeds, Deepen(map[], seeds, 0), maxDepth)
  {
    DeepenAddsLinks(map[], seeds, 0);
    EnqueueAddsATail(Frontier([], {}, {}, [], []), seeds, 0);
  }

  lemma {:induction false} VisitIsFollowed(
    f: Frontier, page: Page, seeds: seq<string>, depthOf: map<string, nat>, maxDepth: nat)
    requires f.queue != [] && DepthsTrack(f, depthOf) && LinksAreFollowed(f, seeds, depthOf, maxDepth)
    requires page.requested == f.queue[0].url
    ensures var deeper := DepthsAfterVisit(f, page, depthOf, maxDepth);
      && (forall u :: u in seeds ==> u in deeper && deeper[u] == 0)
      && (forall p :: p in f.pages + [page] ==> IsFollowed(p, deeper, maxDepth))
  {
    var deeper := DepthsAfterVisit(f, page, depthOf, maxDepth);
    assert f.queue[0] in f.queue;
    DeepenAddsLinks(depthOf, page.links, f.queue[0].depth + 1);
    forall p | p in f.pages + [page]
      ensures IsFollowed(p, deeper, maxDepth)
    {
      if p in f.pages { FollowedSurvives(p, depthOf, page.links, f.queue[0].depth + 1, maxDepth); }
    }
  }

  /** Along any link path, depths grow by at most one link at a time. */
  lemma {:induction false} PathsBoundDepths(
    pages: seq<Page>, seeds: seq<string>, depthOf: map<string, nat>, maxDepth: nat, path: seq<string>, k: nat)
    requires forall u :: u in seeds ==> u in depthOf && depthOf[u] == 0
    requires forall p :: p in pages ==> LinksStep(p, depthOf, maxDepth)
    requires LinkPath(pages, seeds, path) && k < |path| && k <= maxDepth
    ensures path[k] in depthOf && depthOf[path[k]] <= k
  {
    if k > 0 {
      PathsBoundDepths(pages, seeds, depthOf, maxDepth, path, k - 1);
      assert LinksTo(pages, path[k - 1], path[k]);
    }
  }

  /** Every recorded depth is the shortest link distance from the seeds in the graph
      of the pages returned so far. */
  ghost predicate DepthsAreShortest(f: Frontier, seeds: seq<string>, depthOf: map<string, nat>) {
    forall u, n: nat :: u in depthOf && ReachedIn(f.pages, seeds, u, n) ==> depthOf[u] <= n
  }

  /** Steps of one level make depths shortest, and exactly the URLs within
      `maxDepth` links discovered. */
  lemma StepsGiveDistances(f: Frontier, seeds: seq<string>, depthOf: map<string, nat>, maxDepth: nat)
    requires DepthsAreReal(f, seeds, depthOf, maxDepth)
    requires forall u :: u in seeds ==> u in depthOf && depthOf[u] == 0
    requires forall p :: p in f.pages ==> LinksStep(p, depthOf, maxDepth)
    ensures DepthsAreShortest(f, seeds, depthOf)
    ensures forall u :: u in f.discovered <==> exists n: nat :: n <= maxDepth && ReachedIn(f.pages, seeds, u, n)
  {
    forall u, n: nat | n <= maxDepth && ReachedIn(f.pages, seeds, u, n)
      ensures u in f.discovered && depthOf[u] <= n
    {
      var path :| LinkPath(f.pages, seeds, path) && path[|path| - 1] == u && |path| == n + 1;
      PathsBoundDepths(f.pages, seeds, depthOf, maxDepth, path, n);
    }
  }

  /** With or without requeues, depths are link distances if and only if no page's
      followed link was discovered more than one level deeper. */
  lemma DepthsAreShortestIff(f: Frontier, seeds: seq<string>, depthOf: map<string, nat>, maxDepth: nat)
    requires DepthsAreReal(f, seeds, depthOf, maxDepth) && LinksAreFollowed(f, seeds, depthOf, maxDepth)
    ensures DepthsAreShortest(f, seeds, depthOf) <==> forall p :: p in f.pages ==> LinksStep(p, depthOf, maxDepth)
  {
    if DepthsAreShortest(f, seeds, depthOf) {
      forall p | p in f.pages
        ensures LinksStep(p, depthOf, maxDepth)
      {
        ShortestLinksStep(f, seeds, depthOf, maxDepth, p);
      }
    }
    if forall p :: p in f.pages ==> LinksStep(p, depthOf, maxDepth) {
      StepsGiveDistances(f, seeds, depthOf, maxDepth);
    }
  }

  lemma ShortestLinksStep(f: Frontier, seeds: seq<string>, depthOf: map<string, nat>, maxDepth: nat, p: Page)
    requires DepthsAreReal(f, seeds, depthOf, maxDepth) && DepthsAreShortest(f, seeds, depthOf)
    requires p in f.pages && IsFollowed(p, depthOf, maxDepth)
    ensures LinksStep(p, depthOf, maxDepth)
  {
    if depthOf[p.requested] < maxDepth {
      forall v | v in p.links
        ensures v in depthOf && depthOf[v] <= depthOf[p.requested] + 1
      {
        assert LinksTo(f.pages, p.requested, v);
        OneLinkFurther(f.pages, seeds, p.requested, v, depthOf[p.requested]);
      }
    }
  }

  /** In a crawl without requeues every discovered URL's depth is its shortest
      link distance from the seeds in the graph of the pages returned so far,
      and the discovered URLs are exactly those at distance `maxDepth` or less. */
  lemma DepthIsShortestDistance(f: Frontier, seeds: seq<string>, depthOf: map<string, nat>, maxDepth: nat)
    requires DepthsAreReal(f, seeds, depthOf, maxDepth) && Layered(f, seeds, depthOf, maxDepth)
    ensures forall u, n: nat :: u in f.discovered && ReachedIn(f.pages, seeds, u, n) ==> depthOf[u] <= n
    ensures forall u :: u in f.discovered <==> exists n: nat :: n <= maxDepth && ReachedIn(f.pages, seeds, u, n)
  {
    StepsGiveDistances(f, seeds, depthOf, maxDepth);
  }

  /** Dropping or quarantining the popped URL adds no followed link. */
  lemma SettleStaysLayered(f: Frontier, g: Frontier, seeds: seq<string>, depthOf: map<string, nat>, maxDepth: nat,
                           tried: multiset<string>, page: seq<Page>, failure: seq<Failure>)
    requires f.queue != [] && Conserved(f, tried) && DepthsTrack(f, depthOf)
    requires Layered(f, seeds, depthOf, maxDepth)
    requires g == Pop(f).(pages := f.pages + page, failures := f.failures + failure)
    requires |page| + |failure| > 0
    requires forall p :: p in page ==> p.requested == f.queue[0].url && LinksStep(p, depthOf, maxDepth)
    requires forall x :: x in failure ==> x.url == f.queue[0].url
    ensures Layered(g, seeds, depthOf, maxDepth)
  {
    SettledGrows(f, g, f.queue[0].url, page, failure);
    assert f.queue[0] in f.queue;
  }

  lemma TailKeepsLayers(queue: seq<Entry>, longer: seq<Entry>, d: nat)
    requires LayeredQueue(queue) && forall i :: 0 <= i < |queue| ==> d <= queue[i].depth <= d + 1
    requires |queue| <= |longer| && longer[..|queue|] == queue
    requires forall i :: |queue| <= i < |longer| ==> longer[i].depth == d + 1
    ensures LayeredQueue(longer) && forall i :: 0 <= i < |longer| ==> d <= longer[i].depth <= d + 1
  {
    assert forall i :: 0 <= i < |queue| ==> longer[i] == longer[..|queue|][i];
  }

  /** The queue after a visit at depth `d`: the rest, then new links at `d + 1`. */
  lemma VisitKeepsLayers(f: Frontier, links: seq<string>, d: nat)
    requires f.queue != [] && LayeredQueue(f.queue) && f.queue[0].depth == d
    ensures var g := Enqueue(Pop(f), links, d + 1);
      LayeredQueue(g.queue) && forall i :: 0 <= i < |g.queue| ==> d <= g.queue[i].depth <= d + 1
  {
    var g := Enqueue(Pop(f), links, d + 1);
    EnqueueAddsATail(Pop(f), links, d + 1);
    TailKeepsLayers(f.queue[1..], g.queue, d);
  }

  /** Every discovered URL is at most one level below the queue's head. */
  lemma DiscoveredSpanOneLevel(f: Frontier, seeds: seq<string>, depthOf: map<string, nat>, maxDepth: nat,
                               tried: multiset<string>, u: string)
    requires f.queue != [] && Conserved(f, tried) && DepthsTrack(f, depthOf)
    requires Layered(f, seeds, depthOf, maxDepth) && u in f.discovered
    ensures depthOf[u] <= f.queue[0].depth + 1
  {
    if u !in Settled(f) {
      var i :| 0 <= i < |f.queue| && f.queue[i].url == u;
      assert f.queue[i] in f.queue;
    }
  }

  lemma {:induction false} LinksStepSurvives(
    p: Page, depthOf: map<string, nat>, links: seq<string>, depth: nat, maxDepth: nat)
    requires p.requested in depthOf && LinksStep(p, depthOf, maxDepth)
    ensures LinksStep(p, Deepen(depthOf, links, depth), maxDepth)
  {
    DeepenAddsLinks(depthOf, links, depth);
  }

  lemma {:induction false} NewPageLinksStep(
    f: Frontier, page: Page, seeds: seq<string>, depthOf: map<string, nat>, maxDepth: nat, tried: multiset<string>)
    requires f.queue != [] && Conserved(f, tried) && DepthsTrack(f, depthOf)
    requires Layered(f, seeds, depthOf, maxDepth) && page.requested == f.queue[0].url
    ensures LinksStep(page, Deepen(depthOf, page.links, f.queue[0].depth + 1), maxDepth)
  {
    var d := f.queue[0].depth;
    DeepenAddsLinks(depthOf, page.links, d + 1);
    assert f.queue[0] in f.queue;
    forall v | v in page.links && v in depthOf
      ensures depthOf[v] <= d + 1
    {
      DiscoveredSpanOneLevel(f, seeds, depthOf, maxDepth, tried, v);
    }
  }

  lemma {:induction false} VisitedLinksStep(
    f: Frontier, page: Page, seeds: seq<string>, depthOf: map<string, nat>, maxDepth: nat, tried: multiset<string>,
    p: Page)
    requires f.queue != [] && Conserved(f, tried) && DepthsTrack(f, depthOf)
    requires Layered(f, seeds, depthOf, maxDepth) && page.requested == f.queue[0].url
    requires p == page || p in f.pages
    ensures LinksStep(p, Deepen(depthOf, page.links, f.queue[0].depth + 1), maxDepth)
  {
    if p in f.pages {
      assert p.requested in Settled(f);
      LinksStepSurvives(p, depthOf, page.links, f.queue[0].depth + 1, maxDepth);
    } else {
      NewPageLinksStep(f, page, seeds, depthOf, maxDepth, tried);
    }
  }

  lemma LayeredParts(g: Frontier, seeds: seq<string>, depthOf: map<string, nat>, maxDepth: nat, d: nat)
    requires LayeredQueue(g.queue) && forall i :: 0 <= i < |g.queue| ==> d <= g.queue[i].depth
    requires forall u :: u in Settled(g) && u in depthOf ==> depthOf[u] <= d
    requires forall u :: u in seeds ==> u in depthOf && depthOf[u] == 0
    requires forall p :: p in g.pages ==> LinksStep(p, depthOf, maxDepth)
    ensures Layered(g, seeds, depthOf, maxDepth)
  {
  }

  lemma {:induction false} VisitedLinksSteps(
    f: Frontier, page: Page, seeds: seq<string>, depthOf: map<string, nat>, maxDepth: nat, tried: multiset<string>)
    requires f.queue != [] && Conserved(f, tried) && DepthsTrack(f, depthOf)
    requires Layered(f, seeds, depthOf, maxDepth) && page.requested == f.queue[0].url
    ensures forall p :: p in f.pages + [page] ==>
      LinksStep(p, Deepen(depthOf, page.links, f.queue[0].depth + 1), maxDepth)
  {
    forall p | p in f.pages + [page]
      ensures LinksStep(p, Deepen(depthOf, page.links, f.queue[0].depth + 1), maxDepth)
    {
      VisitedLinksStep(f, page, seeds, depthOf, maxDepth, tried, p);
    }
  }

  lemma {:induction false} VisitedDepthParts(f: Frontier, g: Frontier, page: Page, seeds: seq<string>,
                          depthOf: map<string, nat>, maxDepth: nat, tried: multiset<string>)
    requires f.queue != [] && Conserved(f, tried) && DepthsTrack(f, depthOf)
    requires Layered(f, seeds, depthOf, maxDepth) && page.requested == f.queue[0].url
    requires Settled(g) == Settled(f) + {page.requested}
    ensures var deeper := Deepen(depthOf, page.links, f.queue[0].depth + 1);
      && (forall u :: u in Settled(g) && u in deeper ==> deeper[u] <= f.queue[0].depth)
      && (forall u :: u in seeds ==> u in deeper && deeper[u] == 0)
  {
    DeepenAddsLinks(depthOf, page.links, f.queue[0].depth + 1);
    assert f.queue[0] in f.queue;
  }

  lemma {:induction false} VisitDeepens(f: Frontier, page: Page, depthOf: map<string, nat>, maxDepth: nat)
    requires f.queue != [] && f.queue[0].depth < maxDepth
    ensures DepthsAfterVisit(f, page, depthOf, maxDepth) == Deepen(depthOf, page.links, f.queue[0].depth + 1)
  {
  }

  /** Visiting keeps the layers: the page's new links form the next level. */
  lemma VisitStaysLayered(f: Frontier, page: Page, parseFailure: seq<Failure>, seeds: seq<string>,
                          depthOf: map<string, nat>, maxDepth: nat, tried: multiset<string>)
    requires f.queue != [] && Conserved(f, tried) && DepthsTrack(f, depthOf)
    requires Layered(f, seeds, depthOf, maxDepth)
    requires page.requested == f.queue[0].url && forall x :: x in parseFailure ==> x.url == f.queue[0].url
    requires f.queue[0].depth < maxDepth
    ensures Layered(Visit(f, page, parseFailure, maxDepth), seeds,
                    DepthsAfterVisit(f, page, depthOf, maxDepth), maxDepth)
  {
    VisitedPages(f, page, parseFailure, maxDepth);
    VisitedIsLayered(f, Visit(f, page, parseFailure, maxDepth), page, seeds, depthOf, maxDepth, tried);
    VisitDeepens(f, page, depthOf, maxDepth);
  }

  lemma {:induction false} VisitedIsLayered(f: Frontier, g: Frontier, page: Page, seeds: seq<string>,
                         depthOf: map<string, nat>, maxDepth: nat, tried: multiset<string>)
    requires f.queue != [] && Conserved(f, tried) && DepthsTrack(f, depthOf)
    requires Layered(f, seeds, depthOf, maxDepth) && page.requested == f.queue[0].url
    requires g.pages == f.pages + [page] && Settled(g) == Settled(f) + {page.requested}
    requires LayeredQueue(g.queue) && forall i :: 0 <= i < |g.queue| ==> f.queue[0].depth <= g.queue[i].depth
    ensures Layered(g, seeds, Deepen(depthOf, page.links, f.queue[0].depth + 1), maxDepth)
  {
    VisitedDepthParts(f, g, page, seeds, depthOf, maxDepth, tried);
    VisitedLinksSteps(f, page, seeds, depthOf, maxDepth, tried);
    LayeredParts(g, seeds, Deepen(depthOf, page.links, f.queue[0].depth + 1), maxDepth, f.queue[0].depth);
  }

  lemma VisitedSettles(f: Frontier, page: Page, parseFailure: seq<Failure>, maxDepth: nat)
    requires f.queue != [] && f.queue[0].depth < maxDepth
    requires page.requested == f.queue[0].url && forall x :: x in parseFailure ==> x.url == f.queue[0].url
    ensures var g := Visit(f, page, parseFailure, maxDepth);
      g.pages == f.pages + [page] && Settled(g) == Settled(f) + {page.requested}
  {
    var read := Pop(f).(pages := f.pages + [page], failures := f.failures + parseFailure);
    EnqueueAddsATail(read, page.links, f.queue[0].depth + 1);
    SettledGrows(f, Enqueue(read, page.links, f.queue[0].depth + 1), page.requested, [page], parseFailure);
  }

  lemma VisitedPages(f: Frontier, page: Page, parseFailure: seq<Failure>, maxDepth: nat)
    requires f.queue != [] && LayeredQueue(f.queue) && f.queue[0].depth < maxDepth
    requires page.requested == f.queue[0].url && forall x :: x in parseFailure ==> x.url == f.queue[0].url
    ensures var g := Visit(f, page, parseFailure, maxDepth);
      && g.pages == f.pages + [page] && Settled(g) == Settled(f) + {page.requested}
      && LayeredQueue(g.queue) && forall i :: 0 <= i < |g.queue| ==> f.queue[0].depth <= g.queue[i].depth
  {
    var d := f.queue[0].depth;
    var read := Pop(f).(pages := f.pages + [page], failures := f.failures + parseFailure);
    VisitedSettles(f, page, parseFailure, maxDepth);
    QueueIgnoresOutcomes(read, Pop(f), page.links, d + 1);
    VisitKeepsLayers(f, page.links, d);
  }

  lemma {:induction false} QueueIgnoresOutcomes(f: Frontier, g: Frontier, links: seq<string>, depth: nat)
    requires f.queue == g.queue && f.discovered == g.discovered
    ensures Enqueue(f, links, depth).queue == Enqueue(g, links, depth).queue
    ensures Enqueue(f, links, depth).discovered == Enqueue(g, links, depth).discovered
  {
    if links != [] {
      QueueIgnoresOutcomes(f, g, links[..|links| - 1], depth);
    }
  }

  // --------------------------------------------------------- whole crawls

  /** What one pass of the crawl loop does with the popped entry. */
  datatype Turn =
    | Requeued
    | Dropped(failure: Failure)
    | Quarantined(page: Page, failure: Failure)
    | Visited(page: Page, parseFailure: seq<Failure>)

  /** The turn speaks of the popped URL; a URL is requeued once; a quarantined
      page has no links; at most one parse failure goes with a read page. */
  predicate Fits(f: Frontier, turn: Turn) {
    f.queue != [] &&
    var url := f.queue[0].url;
    match turn
    case Requeued => url !in f.retried
    case Dropped(failure) => failure.url == url
    case Quarantined(page, failure) => page.requested == url && failure.url == url && page.links == []
    case Visited(page, parseFailure) =>
      page.requested == url && |parseFailure| <= 1 && forall x :: x in parseFailure ==> x.url == url
  }

  function Advance(f: Frontier, turn: Turn, maxDepth: nat): Frontier
    requires Fits(f, turn)
  {
    match turn
    case Requeued => Requeue(f)
    case Dropped(failure) => Drop(f, failure)
    case Quarantined(page, failure) => Quarantine(f, page, failure)
    case Visited(page, parseFailure) => Visit(f, page, parseFailure, maxDepth)
  }

  ghost function AdvanceDepths(f: Frontier, turn: Turn, depthOf: map<string, nat>, maxDepth: nat): map<string, nat>
    requires Fits(f, turn)
  {
    if turn.Visited? then DepthsAfterVisit(f, turn.page, depthOf, maxDepth) else depthOf
  }

  /** Everything the crawl loop keeps. */
  ghost predicate Sound(
    f: Frontier, seeds: seq<string>, depthOf: map<string, nat>, tried: multiset<string>, maxDepth: nat)
  {
    && Conserved(f, tried)
    && DepthsAreReal(f, seeds, depthOf, maxDepth) && LinksAreFollowed(f, seeds, depthOf, maxDepth)
    && (f.retried == {} ==> Layered(f, seeds, depthOf, maxDepth))
  }

  lemma {:induction false} SeededIsSound(seeds: seq<string>, maxDepth: nat)
    ensures Sound(Seeded(seeds), seeds, Deepen(map[], seeds, 0), multiset{}, maxDepth)
  {
    SeededConserves(seeds);
    SeededDepthsAreReal(seeds, maxDepth);
    SeededIsFollowed(seeds, maxDepth);
    SeededIsLayered(seeds, maxDepth);
  }

  lemma AdvanceConserves(f: Frontier, turn: Turn, tried: multiset<string>, maxDepth: nat)
    requires Fits(f, turn) && Conserved(f, tried)
    ensures Conserved(Advance(f, turn, maxDepth), tried + multiset{f.queue[0].url})
  {
    match turn
    case Requeued => RequeueConserves(f, tried);
    case Dropped(failure) => SettleConserves(f, Drop(f, failure), tried, [], [failure]);
    case Quarantined(page, failure) => SettleConserves(f, Quarantine(f, page, failure), tried, [page], [failure]);
    case Visited(page, parseFailure) => VisitConserves(f, page, parseFailure, maxDepth, tried);
  }

  lemma AdvanceKeepsDepths(f: Frontier, turn: Turn, seeds: seq<string>, depthOf: map<string, nat>, maxDepth: nat)
    requires Fits(f, turn) && DepthsAreReal(f, seeds, depthOf, maxDepth)
    ensures DepthsAreReal(Advance(f, turn, maxDepth), seeds, AdvanceDepths(f, turn, depthOf, maxDepth), maxDepth)
  {
    var g := Advance(f, turn, maxDepth);
    match turn
    case Requeued => SettleKeepsDepths(f, g, seeds, depthOf, maxDepth, []);
    case Dropped(failure) => SettleKeepsDepths(f, g, seeds, depthOf, maxDepth, []);
    case Quarantined(page, failure) => SettleKeepsDepths(f, g, seeds, depthOf, maxDepth, [page]);
    case Visited(page, parseFailure) => VisitKeepsDepths(f, page, parseFailure, seeds, depthOf, maxDepth);
  }

  lemma AdvanceIsFollowed(f: Frontier, turn: Turn, seeds: seq<string>, depthOf: map<string, nat>, maxDepth: nat)
    requires Fits(f, turn) && DepthsTrack(f, depthOf) && LinksAreFollowed(f, seeds, depthOf, maxDepth)
    ensures LinksAreFollowed(Advance(f, turn, maxDepth), seeds, AdvanceDepths(f, turn, depthOf, maxDepth), maxDepth)
  {
    assert f.queue[0] in f.queue;
    if turn.Visited? {
      VisitIsFollowed(f, turn.page, seeds, depthOf, maxDepth);
      VisitKeepsRetried(f, turn.page, turn.parseFailure, maxDepth);
    }
  }

  lemma AdvanceStaysLayered(f: Frontier, turn: Turn, seeds: seq<string>, depthOf: map<string, nat>,
                            tried: multiset<string>, maxDepth: nat)
    requires Fits(f, turn) && !turn.Requeued? && Conserved(f, tried) && DepthsTrack(f, depthOf)
    requires Layered(f, seeds, depthOf, maxDepth)
    ensures Layered(Advance(f, turn, maxDepth), seeds, AdvanceDepths(f, turn, depthOf, maxDepth), maxDepth)
  {
    var g := Advance(f, turn, maxDepth);
    match turn
    case Dropped(failure) =>
      SettleStaysLayered(f, g, seeds, depthOf, maxDepth, tried, [], [failure]);
    case Quarantined(page, failure) =>
      SettleStaysLayered(f, g, seeds, depthOf, maxDepth, tried, [page], [failure]);
    case Visited(page, parseFailure) =>
      if f.queue[0].depth < maxDepth {
        VisitStaysLayered(f, page, parseFailure, seeds, depthOf, maxDepth, tried);
      } else {
        assert f.queue[0] in f.queue;
        SettleStaysLayered(f, g, seeds, depthOf, maxDepth, tried, [page], parseFailure);
      }
  }

  lemma {:induction false} EnqueueKeepsRetried(f: Frontier, links: seq<string>, depth: nat)
    ensures Enqueue(f, links, depth).retried == f.retried
    ensures Enqueue(f, links, depth).pages == f.pages && Enqueue(f, links, depth).failures == f.failures
  {
    if links != [] { EnqueueKeepsRetried(f, links[..|links| - 1], depth); }
  }

  lemma VisitKeepsRetried(f: Frontier, page: Page, parseFailure: seq<Failure>, maxDepth: nat)
    requires f.queue != []
    ensures var g := Visit(f, page, parseFailure, maxDepth);
      g.retried == f.retried && g.pages == f.pages + [page] && g.failures == f.failures + parseFailure
  {
    EnqueueKeepsRetried(Pop(f).(pages := f.pages + [page], failures := f.failures + parseFailure),
                        page.links, f.queue[0].depth + 1);
  }

  /** Each pass of the loop keeps the crawl sound. */
  lemma AdvanceKeepsSound(f: Frontier, turn: Turn, seeds: seq<string>, depthOf: map<string, nat>,
                          tried: multiset<string>, maxDepth: nat)
    requires Fits(f, turn) && Sound(f, seeds, depthOf, tried, maxDepth)
    ensures Sound(Advance(f, turn, maxDepth), seeds, AdvanceDepths(f, turn, depthOf, maxDepth),
                  tried + multiset{f.queue[0].url}, maxDepth)
  {
    AdvanceConserves(f, turn, tried, maxDepth);
    AdvanceKeepsDepths(f, turn, seeds, depthOf, maxDepth);
    AdvanceIsFollowed(f, turn, seeds, depthOf, maxDepth);
    if turn.Requeued? {
      assert f.queue[0].url in Advance(f, turn, maxDepth).retried;
    } else {
      if turn.Visited? { VisitKeepsRetried(f, turn.page, turn.parseFailure, maxDepth); }
      assert Advance(f, turn, maxDepth).retried == f.retried;
      if f.retried == {} { AdvanceStaysLayered(f, turn, seeds, depthOf, tried, maxDepth); }
    }
  }

  function Recorded(f: Frontier): nat {
    |f.pages| + |f.failures|
  }

  /** Each pass records an outcome or spends a URL's one retry: the termination
      measure of the loop. */
  lemma AdvanceMakesProgress(f: Frontier, turn: Turn, maxDepth: nat)
    requires Fits(f, turn) && f.queue[0].url in f.discovered
    ensures turn.Requeued? ==> Recorded(Advance(f, turn, maxDepth)) == Recorded(f)
    ensures turn.Requeued? ==>
      |Advance(f, turn, maxDepth).discovered - Advance(f, turn, maxDepth).retried| < |f.discovered - f.retried|
    ensures !turn.Requeued? ==> Recorded(f) < Recorded(Advance(f, turn, maxDepth)) <= Recorded(f) + 2
  {
    var url := f.queue[0].url;
    if turn.Requeued? {
      assert f.discovered - (f.retried + {url}) == (f.discovered - f.retried) - {url};
    }
    if turn.Visited? { VisitKeepsRetried(f, turn.page, turn.parseFailure, maxDepth); }
  }

  /** One turn of the loop. */
  ghost predicate Follows(
    f: Frontier, turn: Turn, g: Frontier, depthOf: map<string, nat>, deeper: map<string, nat>, maxDepth: nat)
  {
    Fits(f, turn) && g == Advance(f, turn, maxDepth) && deeper == AdvanceDepths(f, turn, depthOf, maxDepth)
  }

  /** No URL is attempted more than twice, and when the queue is empty every
      discovered URL has been attempted and has a page or a failure. */
  lemma AttemptsAndOutcomes(f: Frontier, tried: multiset<string>)
    requires Conserved(f, tried)
    ensures forall u :: tried[u] <= 2
    ensures f.queue == [] ==> forall u :: u in f.discovered ==>
      tried[u] >= 1 && ((exists p :: p in f.pages && p.requested == u) || (exists x :: x in f.failures && x.url == u))
  {
    assert f.queue == [] ==> Queued(f.queue) == {};
  }

  // ----------------------------------------------------------- every crawl

  ghost predicate TurnRun(seeds: seq<string>, maxDepth: nat, turns: seq<Turn>,
                          states: seq<Frontier>, depths: seq<map<string, nat>>) {
    && |states| == |depths| == |turns| + 1
    && states[0] == Seeded(seeds) && depths[0] == Deepen(map[], seeds, 0)
    && (forall k :: 0 <= k < |turns| ==> Fits(states[k], turns[k]))
    && forall k :: 0 <= k < |turns| ==> Follows(states[k], turns[k], states[k + 1], depths[k], depths[k + 1], maxDepth)
  }

  /** The URLs popped by the first `k` turns. */
  ghost function Tried(states: seq<Frontier>, k: nat): multiset<string>
    requires k <= |states| && forall i :: 0 <= i < k ==> states[i].queue != []
  {
    if k == 0 then multiset{} else Tried(states, k - 1) + multiset{states[k - 1].queue[0].url}
  }

  /** Every loop head of every crawl is sound. */
  lemma {:induction false} EveryLoopHeadIsSound(seeds: seq<string>, maxDepth: nat, turns: seq<Turn>,
                                                states: seq<Frontier>, depths: seq<map<string, nat>>, k: nat)
    requires TurnRun(seeds, maxDepth, turns, states, depths) && k <= |turns|
    ensures Sound(states[k], seeds, depths[k], Tried(states, k), maxDepth)
  {
    if k == 0 {
      SeededIsSound(seeds, maxDepth);
    } else {
      EveryLoopHeadIsSound(seeds, maxDepth, turns, states, depths, k - 1);
      assert Follows(states[k - 1], turns[k - 1], states[k], depths[k - 1], depths[k], maxDepth);
      AdvanceKeepsSound(states[k - 1], turns[k - 1], seeds, depths[k - 1], Tried(states, k - 1), maxDepth);
    }
  }

  /** A stage of a crawl: its frontier, and the depths recorded. */
  datatype Stage = Stage(f: Frontier, depths: map<string, nat>)

  ghost predicate Leads(a: Stage, turn: Turn, b: Stage) {
    Follows(a.f, turn, b.f, a.depths, b.depths, 3)
  }

  lemma {:induction false} FourTurns(seeds: seq<string>, s: seq<Stage>, turns: seq<Turn>)
    requires |s| == 5 && |turns| == 4
    requires s[0] == Stage(Seeded(seeds), Deepen(map[], seeds, 0))
    requires Leads(s[0], turns[0], s[1]) && Leads(s[1], turns[1], s[2])
    requires Leads(s[2], turns[2], s[3]) && Leads(s[3], turns[3], s[4])
    ensures TurnRun(seeds, 3, turns, [s[0].f, s[1].f, s[2].f, s[3].f, s[4].f],
                    [s[0].depths, s[1].depths, s[2].depths, s[3].depths, s[4].depths])
  {
  }

  /** One visit, its outcome spelled out. */
  lemma VisitStep(
    f: Frontier, page: Page, g: Frontier, depthOf: map<string, nat>, deeper: map<string, nat>, link: string)
    requires f.queue != [] && page.requested == f.queue[0].url && f.queue[0].depth < 3 && page.links == [link]
    requires g == EnqueuedOne(Read(f, page), link, f.queue[0].depth + 1)
    requires deeper == if link in depthOf then depthOf else depthOf[link := f.queue[0].depth + 1]
    ensures Follows(f, Visited(page, []), g, depthOf, deeper, 3)
  {
    EnqueueOne(Read(f, page), link, f.queue[0].depth + 1);
    DeepenOne(depthOf, link, f.queue[0].depth + 1);
  }

  lemma TwoSeeds()
    ensures Seeded(["s", "b"]) == Frontier([Entry("s", 0), Entry("b", 0)], {"s", "b"}, {}, [], [])
    ensures Deepen(map[], ["s", "b"], 0) == map["s" := 0, "b" := 0]
  {
    EnqueueOne(Frontier([], {}, {}, [], []), "s", 0);
    EnqueueTwo(Frontier([], {}, {}, [], []), "s", "b", 0);
    assert ["s", "b"][..1] == ["s"] && ["s"][..0] == [];
  }

  /** A visit whose one link is new, or known already. */
  lemma VisitNewLink(f: Frontier, page: Page, link: string, g: Frontier,
                     depthOf: map<string, nat>, deeper: map<string, nat>)
    requires f.queue != [] && page.requested == f.queue[0].url && f.queue[0].depth < 3 && page.links == [link]
    requires link !in f.discovered && link !in depthOf
    requires g == Frontier(f.queue[1..] + [Entry(link, f.queue[0].depth + 1)], f.discovered + {link}, f.retried,
                           f.pages + [page], f.failures)
    requires deeper == depthOf[link := f.queue[0].depth + 1]
    ensures Follows(f, Visited(page, []), g, depthOf, deeper, 3)
  {
    NoFailure(f);
    VisitStep(f, page, g, depthOf, deeper, link);
  }

  lemma VisitKnownLink(f: Frontier, page: Page, link: string, g: Frontier, depthOf: map<string, nat>)
    requires f.queue != [] && page.requested == f.queue[0].url && f.queue[0].depth < 3 && page.links == [link]
    requires link in f.discovered && link in depthOf
    requires g == Frontier(f.queue[1..], f.discovered, f.retried, f.pages + [page], f.failures)
    ensures Follows(f, Visited(page, []), g, depthOf, depthOf, 3)
  {
    NoFailure(f);
    VisitStep(f, page, g, depthOf, depthOf, link);
  }

  lemma NoFailure(f: Frontier)
    ensures f.failures + [] == f.failures
  {
  }

  /** Two seeds. */
  ghost function SeedStage(): Stage {
    Stage(Frontier([Entry("s", 0), Entry("b", 0)], {"s", "b"}, {}, [], []), map["s" := 0, "b" := 0])
  }

  /** The first one's link waits behind the second one. */
  ghost function VisitedS(s: Page): Stage {
    Stage(Frontier([Entry("b", 0), Entry("a", 1)], {"s", "b", "a"}, {}, [s], []), map["s" := 0, "b" := 0, "a" := 1])
  }

  /** The second one is requeued behind that link. */
  ghost function RequeuedB(s: Page): Stage {
    Stage(Frontier([Entry("a", 1), Entry("b", 0)], {"s", "b", "a"}, {"b"}, [s], []), map["s" := 0, "b" := 0, "a" := 1])
  }

  ghost function VisitedA(s: Page, a: Page): Stage {
    Stage(Frontier([Entry("b", 0), Entry("x", 2)], {"s", "b", "a", "x"}, {"b"}, [s, a], []),
          map["s" := 0, "b" := 0, "a" := 1, "x" := 2])
  }

  ghost function VisitedB(s: Page, a: Page, b: Page): Stage {
    Stage(Frontier([Entry("x", 2)], {"s", "b", "a", "x"}, {"b"}, [s, a, b], []),
          map["s" := 0, "b" := 0, "a" := 1, "x" := 2])
  }

  lemma FirstTwoTurns(s: Page)
    requires s.requested == "s" && s.links == ["a"]
    ensures Leads(SeedStage(), Visited(s, []), VisitedS(s)) && Leads(VisitedS(s), Requeued, RequeuedB(s))
  {
    VisitNewLink(SeedStage().f, s, "a", VisitedS(s).f, SeedStage().depths, VisitedS(s).depths);
  }

  lemma ThirdTurn(s: Page, a: Page)
    requires a.requested == "a" && a.links == ["x"]
    ensures Leads(RequeuedB(s), Visited(a, []), VisitedA(s, a))
  {
    VisitNewLink(RequeuedB(s).f, a, "x", VisitedA(s, a).f, RequeuedB(s).depths, VisitedA(s, a).depths);
  }

  lemma FourthTurn(s: Page, a: Page, b: Page)
    requires b.requested == "b" && b.links == ["x"]
    ensures Leads(VisitedA(s, a), Visited(b, []), VisitedB(s, a, b))
  {
    VisitKnownLink(VisitedA(s, a).f, b, "x", VisitedB(s, a, b).f, VisitedA(s, a).depths);
  }

  lemma OverstatedRun(s: Page, a: Page, b: Page)
    returns (turns: seq<Turn>, states: seq<Frontier>, depths: seq<map<string, nat>>)
    requires s.requested == "s" && s.links == ["a"]
    requires a.requested == "a" && a.links == ["x"] && b.requested == "b" && b.links == ["x"]
    ensures TurnRun(["s", "b"], 3, turns, states, depths) && |turns| == 4
    ensures Stage(states[4], depths[4]) == VisitedB(s, a, b)
  {
    var s0, s1, s2, s3, s4 := SeedStage(), VisitedS(s), RequeuedB(s), VisitedA(s, a), VisitedB(s, a, b);
    turns := [Visited(s, []), Requeued, Visited(a, []), Visited(b, [])];
    states, depths := [s0.f, s1.f, s2.f, s3.f, s4.f], [s0.depths, s1.depths, s2.depths, s3.depths, s4.depths];
    TwoSeeds();
    FirstTwoTurns(s);
    ThirdTurn(s, a);
    FourthTurn(s, a, b);
    FourTurns(["s", "b"], [s0, s1, s2, s3, s4], turns);
  }

  /** Why requeues are excluded from the distance claim: a requeued page waits
      behind a deeper one, whose link is then recorded a level too deep. */
  lemma RequeueCanOverstateDepth() returns (turns: seq<Turn>, states: seq<Frontier>, depths: seq<map<string, nat>>)
    ensures TurnRun(["s", "b"], 3, turns, states, depths)
    ensures var f, depthOf := states[|turns|], depths[|turns|];
      "x" in f.discovered && "x" in depthOf && depthOf["x"] == 2 && ReachedIn(f.pages, ["s", "b"], "x", 1)
  {
    var b := Page("b", "b", 200, ["x"], ["b"], None);
    turns, states, depths := OverstatedRun(
      Page("s", "s", 200, ["a"], ["s"], None), Page("a", "a", 200, ["x"], ["a"], None), b);
    assert b in states[4].pages;
    assert LinksTo(states[4].pages, "b", "x");
    assert LinkPath(states[4].pages, ["s", "b"], ["b", "x"]);
  }

  ghost function Read(f: Frontier, page: Page): Frontier
    requires f.queue != []
  {
    Pop(f).(pages := f.pages + [page], failures := f.failures + [])
  }

  lemma {:induction false} EnqueueTwo(f: Frontier, first: string, second: string, depth: nat)
    ensures Enqueue(f, [first, second], depth) == Enqueue(Enqueue(f, [first], depth), [second], depth)
  {
    assert [first, second][..1] == [first];
    EnqueueOne(Enqueue(f, [first], depth), second, depth);
  }

  lemma {:induction false} DeepenOne(depthOf: map<string, nat>, link: string, depth: nat)
    ensures Deepen(depthOf, [link], depth) == if link in depthOf then depthOf else depthOf[link := depth]
  {
    assert [link][..0] == [];
  }

  ghost function EnqueuedOne(f: Frontier, link: string, depth: nat): Frontier {
    if link in f.discovered then f else f.(discovered := f.discovered + {link}, queue := f.queue + [Entry(link, depth)])
  }

  lemma {:induction false} EnqueueOne(f: Frontier, link: string, depth: nat)
    ensures Enqueue(f, [link], depth) == EnqueuedOne(f, link, depth)
  {
    assert [link][..0] == [];
  }
}
