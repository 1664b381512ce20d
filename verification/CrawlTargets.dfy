/** The crawler over the real URL layer (audit_engine/crawler.py:670-945;
    audit_engine/urls.py:147-229): no page fetch ever leaves the approved
    domains. */
module CrawlTargets {
  import opened Outcomes
  import opened Splitting
  import opened CrawlPacing
  import Crawler
  import Urls
  import UrlBoundary

  function Normal(env: Urls.Env, url: string): Option<string> {
    var normal := Urls.NormalizeUrl(env, url);
    if normal.Ok? then Some(normal.value) else None
  }

  predicate IsApproved(env: Urls.Env, domains: seq<string>, url: string) {
    var host := UrlBoundary.ReadHost(env, url);
    host.Ok? && UrlBoundary.HostIsAllowed(env, host.value, domains) == Ok(true)
  }

  /** What delays are kept by: the folded authority, port included. */
  function NetlocOf(env: Urls.Env, url: string): string {
    var split := Urls.SplitUrl(url);
    if split.Ok? then env.foldHost(split.value.netloc) else ""
  }

  /** For a URL put together from clean parts that is its authority, whatever the path. */
  lemma NetlocIsRead(env: Urls.Env, parts: Urls.Parts)
    requires parts.scheme in {"http", "https"} && Urls.Without(parts.netloc, Urls.AuthorityEnd)
    requires parts.path != "" && parts.path[0] == '/'
    requires Urls.Without(parts.path, Urls.At('?')) && Urls.Without(parts.path, Urls.At('#'))
    requires Urls.Without(parts.query, Urls.At('#'))
    ensures NetlocOf(env, Urls.Unsplit(parts)) == env.foldHost(parts.netloc)
  {
    Urls.SplitOfUnsplit(parts);
  }

  /** The URL functions the crawler is run with; origins, joining and robots
      matching are library behaviour. */
  function Layer(env: Urls.Env, domains: seq<string>, originOf: string -> string,
                 redirectTo: (string, string) -> Option<string>, robotsAllow: (string, string) -> bool): Crawler.Urls
  {
    Crawler.Urls(url => Normal(env, url), url => IsApproved(env, domains, url),
                 url => NetlocOf(env, url), originOf, redirectTo, robotsAllow)
  }

  /** What the crawler is told of a URL: its normal form, if it is accepted, and whether
      the host read off it is an approved domain or lies below one. */
  lemma LayerTells(env: Urls.Env, domains: seq<string>, originOf: string -> string,
                   redirectTo: (string, string) -> Option<string>, robotsAllow: (string, string) -> bool,
                   url: string, normal: string)
    ensures var urls := Layer(env, domains, originOf, redirectTo, robotsAllow);
      && (urls.normalize(url) == Some(normal) <==> Urls.NormalizeUrl(env, url) == Ok(normal))
      && (urls.approved(url) <==>
            UrlBoundary.ComparedHost(env, url).Some?
            && UrlBoundary.HasBoundary(env, UrlBoundary.ComparedHost(env, url).value, domains))
      && urls.originOf == originOf && urls.redirectTo == redirectTo && urls.robotsAllow == robotsAllow
  {
    var host := UrlBoundary.ComparedHost(env, url);
    if host.Some? { UrlBoundary.AnyBoundaryIff(env, host.value, domains); }
  }

  /** The host lies, label by label, at or below the approved domain. */
  ghost predicate LiesBelow(env: Urls.Env, url: string, domain: string) {
    var host, boundary := UrlBoundary.ComparedHost(env, url), Urls.CanonicalHost(env, domain);
    host.Some? && boundary.Some? && UrlBoundary.LabelsEnd(SplitOn(host.value, '.'), SplitOn(boundary.value, '.'))
  }

  ghost predicate IsInside(env: Urls.Env, domains: seq<string>, url: string) {
    exists i :: 0 <= i < |domains| && LiesBelow(env, url, domains[i])
  }

  lemma ApprovedIsInside(env: Urls.Env, domains: seq<string>, url: string)
    requires IsApproved(env, domains, url)
    ensures IsInside(env, domains, url)
  {
    var host := UrlBoundary.ComparedHost(env, url).value;
    UrlBoundary.AnyBoundaryIff(env, host, domains);
    var i :| 0 <= i < |domains| && UrlBoundary.ReachesBoundary(env, host, domains, i);
    UrlBoundary.WithinIffLabelsEnd(host, Urls.CanonicalHost(env, domains[i]).value);
    assert LiesBelow(env, url, domains[i]);
  }

  /** A whole crawl: every page fetch that was sent, answered or not, went to the
      normal form of the URL asked for, at a host at or below an approved domain. */
  method CrawlSite(env: Urls.Env, domains: seq<string>, originOf: string -> string,
                   redirectTo: (string, string) -> Option<string>, robotsAllow: (string, string) -> bool,
                   config: Config, world: Crawler.World, seeds: seq<string>)
    returns (crawler: Crawler.BoundedCrawler, result: Result<Crawler.CrawlResult, Crawler.CrawlError>)
    requires Accepted(config) && world.Valid()
    modifies world
    ensures fresh(crawler)
    ensures forall i :: 0 <= i < |crawler.fetches| ==>
      var fetch := crawler.fetches[i];
      Urls.NormalizeUrl(env, fetch.current) == Ok(fetch.sent) && IsInside(env, domains, fetch.sent)
  {
    crawler := new Crawler.BoundedCrawler(config, Layer(env, domains, originOf, redirectTo, robotsAllow), world);
    ghost var trace;
    result, trace := crawler.Crawl(seeds);
    forall i | 0 <= i < |crawler.fetches|
      ensures Urls.NormalizeUrl(env, crawler.fetches[i].current) == Ok(crawler.fetches[i].sent)
      ensures IsInside(env, domains, crawler.fetches[i].sent)
    {
      assert crawler.Proper(crawler.fetches[i]);
      ApprovedIsInside(env, domains, crawler.fetches[i].sent);
    }
  }
}
