/** The crawler itself (audit_engine/crawler.py:619-945): robots cache, throttle,
    redirect following, one requeue per challenged URL, and the crawl loop.  The
    clock, the resolver and the network are oracles indexed by the number of
    calls made so far, so every statement holds for all of their behaviours. */
module Crawler {
  import opened Outcomes
  import opened Sequences
  import opened CrawlPacing
  import opened CrawlFrontier

  // ---------------------------------------------------------- the outside

  datatype Html = NotHtml | Parsed(links: seq<string>) | Unparsable

  /** A response as the crawler inspects it; `location` is empty when absent. */
  datatype Response = Response(
    status: int, location: string, retryAfter: Option<nat>, marker: bool, bodyBytes: nat,
    html: Html, robots: string)

  /** The URL layer and the robots matcher. */
  datatype Urls = Urls(
    normalize: string -> Option<string>,
    approved: string -> bool,
    hostOf: string -> string,
    originOf: string -> string,
    redirectTo: (string, string) -> Option<string>,
    robotsAllow: (string, string) -> bool)

  datatype Reply = Reply(url: string, response: Response)

  /** Clock, resolver and network. */
  class World {
    const elapse: nat -> real
    const resolves: (nat, string) -> bool
    const network: (nat, string) -> Option<Response>
    var now: real
    var tick: nat

    ghost predicate Valid() {
      forall k :: elapse(k) >= 0.0
    }

    constructor (elapse: nat -> real, resolves: (nat, string) -> bool, network: (nat, string) -> Option<Response>)
      requires forall k :: elapse(k) >= 0.0
      ensures Valid()
    {
      this.elapse, this.resolves, this.network := elapse, resolves, network;
      now, tick := 0.0, 0;
    }

    /** The guard's answer for a URL at tick `k`: its normal form, if its host is
        approved and resolves to public addresses only. */
    function Validated(urls: Urls, k: nat, url: string): Option<string> {
      var normal := urls.normalize(url);
      if normal.None? || !urls.approved(normal.value) || !resolves(k, normal.value) then None else normal
    }

    /** What a validated fetch at tick `k` brings back; `None` is an exception. */
    function Answer(urls: Urls, k: nat, url: string): Option<Reply> {
      var target := Validated(urls, k, url);
      if target.None? then None
      else
        var response := network(k, target.value);
        if response.None? then None else Some(Reply(target.value, response.value))
    }

    method Monotonic() returns (t: real)
      requires Valid()
      modifies this
      ensures old(now) <= now == t && tick == old(tick) + 1
    {
      now, tick := now + elapse(tick), tick + 1;
      t := now;
    }

    /** A sleep lasts at least as long as asked for. */
    method Sleep(seconds: real)
      requires Valid() && seconds > 0.0
      modifies this
      ensures now >= old(now) + seconds && tick == old(tick) + 1
    {
      now, tick := now + seconds + elapse(tick), tick + 1;
    }

    method Exchange(urls: Urls, url: string) returns (reply: Option<Reply>)
      requires Valid()
      modifies this
      ensures reply == Answer(urls, old(tick), url)
      ensures old(now) <= now && tick == old(tick) + 1
    {
      reply := Answer(urls, tick, url);
      now, tick := now + elapse(tick), tick + 1;
    }

    method ValidateRedirect(urls: Urls, previous: string, location: string) returns (target: Option<string>)
      requires Valid()
      modifies this
      ensures target == RedirectTarget(urls, old(tick), previous, location)
      ensures old(now) <= now && tick == old(tick) + 1
    {
      target := RedirectTarget(urls, tick, previous, location);
      now, tick := now + elapse(tick), tick + 1;
    }

    function RedirectTarget(urls: Urls, k: nat, previous: string, location: string): Option<string> {
      var joined := urls.redirectTo(previous, location);
      if joined.None? then None else Validated(urls, k, joined.value)
    }
  }

  // ---------------------------------------------------------------- robots

  datatype Policy = Blanket(permit: bool) | Rules(text: string)

  function Decide(urls: Urls, policy: Policy, url: string): bool {
    match policy
    case Blanket(permit) => permit
    case Rules(text) => urls.robotsAllow(text, url)
  }

  /** The policy a robots.txt fetch leads to. */
  function PolicyFrom(reply: Option<Reply>): Policy {
    if reply.None? then Blanket(false)
    else
      var status := reply.value.response.status;
      if 200 <= status < 300 then Rules(reply.value.response.robots)
      else if status == 429 || status >= 500 then Blanket(false)
      else Blanket(true)
  }

  /** Whether the answer to a robots.txt request lets a URL be fetched: a readable
      file decides itself, no answer and a throttled or failing origin forbid, and
      any other status allows. */
  ghost predicate Allows(urls: Urls, answer: Option<Reply>, url: string) {
    && answer.Some?
    && var status := answer.value.response.status;
       if 200 <= status <= 299 then urls.robotsAllow(answer.value.response.robots, url)
       else status != 429 && status <= 499
  }

  lemma PolicyDecides(urls: Urls, answer: Option<Reply>, url: string)
    ensures Decide(urls, PolicyFrom(answer), url) <==> Allows(urls, answer, url)
  {
  }

  class RobotsCache {
    const urls: Urls
    const obey: bool
    var policies: map<string, Policy>
    ghost var asked: seq<string>
    ghost var answers: map<string, Option<Reply>>

    constructor (urls: Urls, obey: bool)
      ensures Valid() && policies == map[] && asked == [] && this.urls == urls && this.obey == obey
    {
      this.urls, this.obey := urls, obey;
      policies, asked, answers := map[], [], map[];
    }

    /** `asked` lists the origins whose robots.txt was fetched, each once, and
        `answers` what came back. */
    ghost predicate Valid()
      reads this
    {
      && Distinct(asked) && (forall origin :: origin in asked <==> origin in policies)
      && answers.Keys == policies.Keys
      && forall origin :: origin in policies ==> policies[origin] == PolicyFrom(answers[origin])
    }

    /** What the cache now says of a URL. */
    ghost predicate Permits(url: string)
      reads this
    {
      obey ==> urls.originOf(url) in policies && Decide(urls, policies[urls.originOf(url)], url)
    }

    method CanFetch(world: World, url: string) returns (permitted: bool)
      requires Valid() && world.Valid()
      modifies this, world
      ensures Valid() && old(world.now) <= world.now
      ensures permitted == Permits(url)
      ensures permitted <==> !obey || (urls.originOf(url) in answers && Allows(urls, answers[urls.originOf(url)], url))
      ensures forall origin :: origin in old(answers) ==> origin in answers && answers[origin] == old(answers)[origin]
      ensures var origin := urls.originOf(url);
        if !obey || origin in old(policies) then
          policies == old(policies) && asked == old(asked) && world.tick == old(world.tick)
        else
          && policies == old(policies)[
               origin := PolicyFrom(world.Answer(urls, old(world.tick), origin + "/robots.txt"))]
          && asked == old(asked) + [origin]
          && answers == old(answers)[origin := world.Answer(urls, old(world.tick), origin + "/robots.txt")]
    {
      if !obey {
        return true;
      }
      var origin := urls.originOf(url);
      if origin !in policies {
        var reply := world.Exchange(urls, origin + "/robots.txt");
        policies := policies[origin := PolicyFrom(reply)];
        asked := asked + [origin];
        answers := answers[origin := reply];
      }
      PolicyDecides(urls, answers[origin], url);
      permitted := Decide(urls, policies[origin], url);
    }
  }

  // ------------------------------------------------- challenge responses

  const CHALLENGE_MAX_BODY_BYTES := 100000

  /** Whether a response is throttling, denial or a bot challenge. */
  function Classify(r: Response): Option<Challenge> {
    if r.status == 429 then Some(Challenge(RateLimited, r.retryAfter))
    else if r.status == 503 && (r.retryAfter.Some? || r.marker) then Some(Challenge(RateLimited, r.retryAfter))
    else if r.status == 403 && r.marker then Some(Challenge(AccessDenied, r.retryAfter))
    else if r.marker && 200 <= r.status < 300 && r.bodyBytes <= CHALLENGE_MAX_BODY_BYTES then
      Some(Challenge(BotChallenge, r.retryAfter))
    else None
  }

  /** What counts as throttling, as a denial and as a challenge page. */
  ghost predicate Throttles(r: Response) {
    r.status == 429 || (r.status == 503 && (r.marker || r.retryAfter != None))
  }

  ghost predicate Denies(r: Response) {
    r.status == 403 && r.marker
  }

  ghost predicate Hides(r: Response) {
    200 <= r.status <= 299 && r.marker && r.bodyBytes <= 100000
  }

  ghost predicate IsContent(r: Response) {
    !Throttles(r) && !Denies(r) && !Hides(r)
  }

  ghost predicate IsChallengeOf(r: Response, challenge: Challenge) {
    && challenge.retryAfter == r.retryAfter
    && match challenge.kind
       case RateLimited => Throttles(r)
       case AccessDenied => Denies(r)
       case BotChallenge => Hides(r)
  }

  lemma ClassifyIff(r: Response)
    ensures Classify(r) == None <==> IsContent(r)
    ensures forall challenge :: Classify(r) == Some(challenge) <==> IsChallengeOf(r, challenge)
  {
  }

  predicate IsRedirect(status: int) {
    status in {301, 302, 303, 307, 308}
  }

  datatype Refusal = RobotsForbid | FetchError | MissingLocation | RedirectLimit | TargetRejected | RedirectLoop

  datatype FetchOutcome =
    | Fetched(reply: Reply)
    | Challenged(reply: Reply, challenge: Challenge)
    | Refused(refusal: Refusal)

  /** One page fetch, answered or not: the URL asked for, the URL sent, and the
      throttle slot it waited for. */
  datatype Fetch = Fetch(current: string, sent: string, slot: nat)

  /** Between two records of fetches the first `k` URLs of the chain were fetched. */
  ghost predicate Made(before: seq<Fetch>, now: seq<Fetch>, chain: seq<string>, k: nat) {
    && k <= |chain| && |now| == |before| + k && now[..|before|] == before
    && forall i :: 0 <= i < k ==> now[|before| + i].current == chain[i]
  }

  lemma MadeOneMore(before: seq<Fetch>, mid: seq<Fetch>, now: seq<Fetch>, chain: seq<string>, longer: seq<string>,
                    k: nat, m: nat)
    requires Made(before, mid, chain, k) && chain <= longer && k <= m <= k + 1 && m <= |chain|
    requires |now| == |mid| + m - k && now[..|mid|] == mid && (m > k ==> now[|mid|].current == chain[k])
    ensures Made(before, now, longer, m)
  {
    assert forall i :: 0 <= i < |mid| ==> now[i] == now[..|mid|][i];
    assert now[..|before|] == mid[..|before|];
  }

  // ---------------------------------------------------------- the crawler

  class BoundedCrawler {
    const config: Config
    const urls: Urls
    const world: World
    const robots: RobotsCache
    var lastRequest: map<string, real>
    var hostDelay: map<string, real>
    ghost var signals: map<string, nat>
    ghost var slots: seq<Slot>
    ghost var fetches: seq<Fetch>

    constructor (config: Config, urls: Urls, world: World)
      requires Accepted(config) && world.Valid()
      ensures Valid() && fresh(robots)
      ensures this.config == config && this.urls == urls && this.world == world
      ensures fetches == [] && slots == [] && robots.asked == [] && signals == map[]
    {
      this.config, this.urls, this.world := config, urls, world;
      robots := new RobotsCache(urls, config.obeyRobots);
      lastRequest, hostDelay, signals := map[], map[], map[];
      slots, fetches := [], [];
    }

    /** A page fetch was permitted by robots.txt, went to the normal form of the
        URL at an approved host, and waited for its own throttle slot. */
    ghost predicate Proper(fetch: Fetch)
      reads this, robots
    {
      && robots.Permits(fetch.current)
      && urls.normalize(fetch.current) == Some(fetch.sent) && urls.approved(fetch.sent)
      && fetch.slot < |slots| && slots[fetch.slot].host == urls.hostOf(fetch.current)
    }

    ghost predicate Valid()
      reads this, world, robots
    {
      && Accepted(config) && world.Valid() && robots.Valid()
      && robots.urls == urls && robots.obey == config.obeyRobots
      && DelaysFollow(config, hostDelay, signals)
      && OnRecord(config, slots, lastRequest, hostDelay, world.now)
      && (forall i :: 0 <= i < |fetches| ==> Proper(fetches[i]))
      && (forall i, j :: 0 <= i < j < |fetches| ==> fetches[i].slot < fetches[j].slot)
    }

    method ApplyBackoff(host: string)
      requires Valid()
      modifies this`hostDelay, this`signals
      ensures Valid()
      ensures signals == old(signals)[host := SignalsOf(old(signals), host) + 1]
    {
      var delay := NextDelay(config, HostDelay(config, hostDelay, host));
      BackoffKeepsRecord(config, slots, lastRequest, hostDelay, signals, world.now, host);
      hostDelay := hostDelay[host := delay];
      signals := signals[host := SignalsOf(signals, host) + 1];
    }

    /** Sleeps until a full delay has passed since the host's last request. */
    method AwaitTurn(host: string) returns (at: real)
      requires Valid()
      modifies world
      ensures old(world.now) <= at == world.now
      ensures host in lastRequest ==> at - lastRequest[host] >= HostDelay(config, hostDelay, host)
    {
      var now := world.Monotonic();
      if host in lastRequest {
        var remaining := HostDelay(config, hostDelay, host) - (now - lastRequest[host]);
        if remaining > 0.0 {
          world.Sleep(remaining);
        }
      }
      at := world.Monotonic();
    }

    method Throttle(url: string)
      requires Valid()
      modifies this`lastRequest, this`slots, world
      ensures Valid() && old(world.now) <= world.now
      ensures |slots| == |old(slots)| + 1 && slots[..|old(slots)|] == old(slots)
      ensures slots[|old(slots)|].host == urls.hostOf(url)
    {
      var host := urls.hostOf(url);
      var at := AwaitTurn(host);
      SlotKeepsRecord(config, slots, lastRequest, hostDelay, old(world.now), host, at);
      lastRequest := lastRequest[host := at];
      slots := slots + [Slot(host, at, HostDelay(config, hostDelay, host))];
    }

    /** The robots check; answers already given stay as they were. */
    method Permitted(current: string) returns (permitted: bool)
      requires Valid()
      modifies world, robots
      ensures Valid() && old(world.now) <= world.now
      ensures permitted == robots.Permits(current)
    {
      assert forall i :: 0 <= i < |fetches| ==> Proper(fetches[i]);
      permitted := robots.CanFetch(world, current);
    }

    /** At tick `k` the guard lets the URL through: it has a normal form, at an
        approved host that resolves to public addresses. */
    ghost predicate Released(k: nat, url: string) {
      var normal := urls.normalize(url);
      normal.Some? && urls.approved(normal.value) && world.resolves(k, normal.value)
    }

    /** The reply is what the network gave for the normal form at tick `k`. */
    ghost predicate Answers(k: nat, url: string, reply: Reply) {
      urls.normalize(url) == Some(reply.url) && world.network(k, reply.url) == Some(reply.response)
    }

    lemma AnswerIsOfTheReleased(k: nat, url: string)
      ensures world.Validated(urls, k, url).Some? <==> Released(k, url)
      ensures var reply := world.Answer(urls, k, url);
        && (reply.Some? ==> Released(k, url) && Answers(k, url, reply.value))
        && (Released(k, url) && reply.None? ==> world.network(k, urls.normalize(url).value) == None)
    {
    }

    /** One more fetch is on record, of this URL, if one was sent. */
    ghost predicate RecordedIf(before: seq<Fetch>, sent: bool, current: string)
      reads this`fetches
    {
      if sent then
        |fetches| == |before| + 1 && fetches[..|before|] == before && fetches[|before|].current == current
      else fetches == before
    }

    /** Puts a fetch that waited for the latest slot on record. */
    ghost method Record(fetch: Fetch)
      requires Valid() && Proper(fetch) && forall i :: 0 <= i < |fetches| ==> fetches[i].slot < fetch.slot
      modifies this`fetches
      ensures Valid() && fetches == old(fetches) + [fetch]
    {
      fetches := fetches + [fetch];
    }

    /** The guarded fetch of a permitted URL.  Whatever the guard lets through is sent and
        recorded, whether an answer comes or not. */
    method Send(current: string, ghost slot: nat) returns (reply: Option<Reply>, ghost sent: bool)
      requires Valid() && robots.Permits(current)
      requires slot < |slots| && slots[slot].host == urls.hostOf(current)
      requires forall i :: 0 <= i < |fetches| ==> fetches[i].slot < slot
      modifies this`fetches, world
      ensures Valid() && old(world.now) <= world.now
      ensures world.tick > 0 && sent == world.Validated(urls, world.tick - 1, current).Some?
      ensures reply == world.Answer(urls, world.tick - 1, current)
      ensures RecordedIf(old(fetches), sent, current)
    {
      var started := world.Monotonic();
      ghost var target := world.Validated(urls, world.tick, current);
      sent := target.Some?;
      if sent { Record(Fetch(current, target.value, slot)); }
      reply := world.Exchange(urls, current);
    }

    /** The same, throttled. */
    method FetchPermitted(current: string) returns (reply: Option<Reply>, ghost sent: bool)
      requires Valid() && robots.Permits(current)
      modifies this`lastRequest, this`slots, this`fetches, world
      ensures Valid() && old(world.now) <= world.now
      ensures world.tick > 0 && sent == world.Validated(urls, world.tick - 1, current).Some?
      ensures reply == world.Answer(urls, world.tick - 1, current)
      ensures RecordedIf(old(fetches), sent, current)
    {
      ghost var slot := |slots|;
      assert forall i :: 0 <= i < |fetches| ==> Proper(fetches[i]);
      Throttle(current);
      reply, sent := Send(current, slot);
    }

    /** One hop: robots check, throttle, guarded fetch. */
    method FetchOnce(current: string) returns (permitted: bool, reply: Option<Reply>, ghost sent: bool)
      requires Valid()
      modifies this`lastRequest, this`slots, this`fetches, world, robots
      ensures Valid() && old(world.now) <= world.now
      ensures permitted == robots.Permits(current)
      ensures permitted ==> world.tick > 0 && (sent <==> Released(world.tick - 1, current))
      ensures sent ==> permitted
      ensures reply.Some? ==> sent && Answers(world.tick - 1, current, reply.value)
      ensures sent && reply.None? ==> world.network(world.tick - 1, urls.normalize(current).value) == None
      ensures RecordedIf(old(fetches), sent, current)
    {
      permitted := Permitted(current);
      reply, sent := None, false;
      if permitted {
        reply, sent := FetchPermitted(current);
        AnswerIsOfTheReleased(world.tick - 1, current);
      }
    }

    // ------------------------------------------------ following redirects

    /** `next` is where the reply to `current` redirects to. */
    ghost predicate RedirectsTo(current: string, reply: Reply, next: string) {
      && reply.response.status in {301, 302, 303, 307, 308} && reply.response.location != ""
      && var joined := urls.redirectTo(current, reply.response.location);
         joined.Some? && urls.normalize(joined.value) == Some(next) && urls.approved(next)
    }

    /** The chain of URLs requested, each the redirect target of the one before;
        no URL twice, and no more than one beyond the redirect limit. */
    ghost predicate IsChain(url: string, chain: seq<string>, replies: seq<Reply>) {
      && 0 < |chain| <= config.maxRedirects + 1 && chain[0] == url && Distinct(chain)
      && |chain| - 1 <= |replies| <= |chain|
      && (forall i :: 0 <= i < |replies| ==> urls.normalize(chain[i]) == Some(replies[i].url))
      && (forall i :: 0 <= i < |chain| - 1 ==> RedirectsTo(chain[i], replies[i], chain[i + 1]))
    }

    /** Why the chain ended where it did. */
    ghost predicate EndsWith(chain: seq<string>, replies: seq<Reply>, outcome: FetchOutcome) {
      match outcome
      case Fetched(reply) =>
        |replies| == |chain| > 0 && replies[|chain| - 1] == reply
        && reply.response.status !in {301, 302, 303, 307, 308} && IsContent(reply.response)
      case Challenged(reply, challenge) =>
        |replies| == |chain| > 0 && replies[|chain| - 1] == reply
        && reply.response.status !in {301, 302, 303, 307, 308} && IsChallengeOf(reply.response, challenge)
      case Refused(refusal) =>
        if refusal in {RobotsForbid, FetchError} then |replies| == |chain| - 1
        else
          && |replies| == |chain| > 0
          && var last := replies[|chain| - 1];
          && last.response.status in {301, 302, 303, 307, 308}
          && (refusal == MissingLocation <==> last.response.location == "")
          && (refusal == RedirectLimit ==> |chain| == config.maxRedirects + 1)
          && (refusal in {TargetRejected, RedirectLoop} ==> |chain| <= config.maxRedirects)
          && (refusal == RedirectLoop ==>
                exists i :: 0 <= i < |chain| && RedirectsTo(chain[|chain| - 1], last, chain[i]))
    }

    /** The location given cannot be joined, or the guard does not let it through. */
    ghost predicate LeadsNowhere(k: nat, current: string, reply: Reply) {
      var joined := urls.redirectTo(current, reply.response.location);
      joined.None? || !Released(k, joined.value)
    }

    /** What to do with the reply to the last URL of the chain: stop, or go on to
        the next URL. */
    method AfterReply(chain: seq<string>, reply: Reply, ghost replies: seq<Reply>)
      returns (outcome: Option<FetchOutcome>, next: string)
      requires Valid() && 0 < |chain| <= config.maxRedirects + 1
      requires |replies| == |chain| && replies[|chain| - 1] == reply
      modifies world
      ensures Valid() && old(world.now) <= world.now
      ensures outcome.Some? ==> EndsWith(chain, replies, outcome.value)
      ensures outcome.None? ==>
        RedirectsTo(chain[|chain| - 1], reply, next) && next !in chain && |chain| <= config.maxRedirects
      ensures outcome.None? ==> world.tick > 0 && world.resolves(world.tick - 1, next)
      ensures outcome == Some(Refused(TargetRejected)) ==>
        world.tick > 0 && LeadsNowhere(world.tick - 1, chain[|chain| - 1], reply)
    {
      var response := reply.response;
      if !IsRedirect(response.status) {
        ClassifyIff(response);
        var challenge := Classify(response);
        if challenge.Some? {
          return Some(Challenged(reply, challenge.value)), "";
        }
        return Some(Fetched(reply)), "";
      }
      if response.location == "" {
        return Some(Refused(MissingLocation)), "";
      }
      if |chain| - 1 >= config.maxRedirects {
        return Some(Refused(RedirectLimit)), "";
      }
      var target := world.ValidateRedirect(urls, chain[|chain| - 1], response.location);
      if target.None? {
        return Some(Refused(TargetRejected)), "";
      }
      if target.value in chain {
        return Some(Refused(RedirectLoop)), "";
      }
      return None, target.value;
    }

    /** The fetches made since `before` are those of the first `k` URLs of `chain`. */
    ghost predicate FetchedSince(before: seq<Fetch>, chain: seq<string>, k: nat)
      reads this`fetches
    {
      Made(before, fetches, chain, k)
    }

    lemma LongerChain(url: string, chain: seq<string>, replies: seq<Reply>, next: string)
      requires IsChain(url, chain, replies) && |replies| == |chain| <= config.maxRedirects
      requires RedirectsTo(chain[|chain| - 1], replies[|chain| - 1], next) && next !in chain
      ensures IsChain(url, chain + [next], replies)
    {
    }

    lemma OneMoreReply(url: string, chain: seq<string>, replies: seq<Reply>, reply: Reply)
      requires IsChain(url, chain, replies) && |replies| == |chain| - 1
      requires urls.normalize(chain[|chain| - 1]) == Some(reply.url)
      ensures IsChain(url, chain, replies + [reply])
    {
    }

    /** One pass of the redirect loop: fetch the last URL of the chain, then stop
        or extend the chain.  `sent` counts the URLs of the chain sent so far: one
        more than the replies only if the fetch just sent failed. */
    method Hop(url: string, chain: seq<string>, ghost replies: seq<Reply>)
      returns (outcome: Option<FetchOutcome>, chain': seq<string>, ghost replies': seq<Reply>, ghost sent: nat)
      requires Valid() && IsChain(url, chain, replies) && |replies| == |chain| - 1
      modifies this`lastRequest, this`slots, this`fetches, world, robots
      ensures Valid() && old(world.now) <= world.now
      ensures IsChain(url, chain', replies') && replies <= replies' && chain <= chain'
      ensures |replies'| <= sent <= |replies| + 1
      ensures |fetches| == |old(fetches)| + sent - |replies| && fetches[..|old(fetches)|] == old(fetches)
      ensures sent > |replies| ==> fetches[|old(fetches)|].current == chain[|replies|]
      ensures sent > |replies'| ==> outcome == Some(Refused(FetchError))
      ensures outcome.Some? ==> chain' == chain && EndsWith(chain, replies', outcome.value)
      ensures outcome.None? ==> |chain'| == |chain| + 1 && |replies'| == |chain| <= config.maxRedirects
    {
      chain', replies' := chain, replies;
      var permitted, reply;
      ghost var left;
      permitted, reply, left := FetchOnce(chain[|chain| - 1]);
      sent := |replies| + if left then 1 else 0;
      if reply.None? {
        return Some(Refused(if permitted then FetchError else RobotsForbid)), chain, replies, sent;
      }
      OneMoreReply(url, chain, replies, reply.value);
      replies' := replies + [reply.value];
      var next;
      outcome, next := AfterReply(chain, reply.value, replies');
      if outcome.None? {
        LongerChain(url, chain, replies', next);
        chain' := chain + [next];
      }
    }

    /** How many URLs of the chain were sent: those replied to, and one more if the
        last fetch was sent and failed. */
    ghost predicate SentFits(sent: nat, replies: seq<Reply>, outcome: FetchOutcome) {
      |replies| <= sent <= |replies| + 1 && (sent > |replies| ==> outcome == Refused(FetchError))
    }

    method FetchFollowingRedirects(url: string)
      returns (outcome: FetchOutcome, chain: seq<string>, ghost replies: seq<Reply>, ghost sent: nat)
      requires Valid()
      modifies this`lastRequest, this`slots, this`fetches, world, robots
      ensures Valid() && old(world.now) <= world.now
      ensures IsChain(url, chain, replies) && EndsWith(chain, replies, outcome)
      ensures FetchedSince(old(fetches), chain, sent) && SentFits(sent, replies, outcome)
    {
      chain, replies, sent := [url], [], 0;
      var hop := 0;
      while hop <= config.maxRedirects
        invariant hop <= config.maxRedirects && |chain| == hop + 1 && |replies| == hop
        invariant Valid() && old(world.now) <= world.now
        invariant IsChain(url, chain, replies)
        invariant FetchedSince(old(fetches), chain, hop)
        decreases config.maxRedirects - hop
      {
        var done;
        ghost var mid, was := fetches, chain;
        done, chain, replies, sent := Hop(url, chain, replies);
        MadeOneMore(old(fetches), mid, fetches, was, chain, hop, sent);
        if done.Some? {
          return done.value, chain, replies, sent;
        }
        hop := hop + 1;
      }
      // every pass over the last permitted hop returns, so the loop never runs out
      assert false;
    }

    // ------------------------------------------------------ one loop pass

    /** How long a challenged host asked to be left alone, capped. */
    function WaitFor(challenge: Challenge): (wait: real)
      ensures challenge.retryAfter.None? ==> wait == 0.0
      ensures challenge.retryAfter.Some? ==>
        && wait <= config.maxRetryAfter && wait <= challenge.retryAfter.value as real
        && wait in {config.maxRetryAfter, challenge.retryAfter.value as real}
    {
      if challenge.retryAfter.Some? then Min(challenge.retryAfter.value as real, config.maxRetryAfter) else 0.0
    }

    /** Waits, and counts the end of the wait as the host's last request. */
    method WaitOut(host: string, wait: real)
      requires Valid()
      modifies this`lastRequest, world
      ensures Valid() && old(world.now) <= world.now
      ensures lastRequest == if wait > 0.0 then old(lastRequest)[host := world.now] else old(lastRequest)
      ensures wait > 0.0 ==> world.now >= old(world.now) + wait
    {
      if wait > 0.0 {
        world.Sleep(wait);
        var at := world.Monotonic();
        TouchKeepsRecord(config, slots, lastRequest, hostDelay, old(world.now), host, at);
        lastRequest := lastRequest[host := at];
      }
    }

    /** Backs the host off and queues the URL once more, if it has not been retried
        and waiting stays inside the run's duration budget. */
    method RequeueAfterChallenge(url: string, depth: nat, challenge: Challenge,
                                 queue: seq<Entry>, retried: set<string>, started: real)
      returns (requeued: bool, queue': seq<Entry>, retried': set<string>)
      requires Valid()
      modifies this`hostDelay, this`signals, this`lastRequest, world
      ensures Valid() && old(world.now) <= world.now
      ensures signals == old(signals)[urls.hostOf(url) := SignalsOf(old(signals), urls.hostOf(url)) + 1]
      ensures requeued ==> url !in retried && queue' == queue + [Entry(url, depth)] && retried' == retried + {url}
      ensures !requeued ==> queue' == queue && retried' == retried
      ensures requeued ==> old(world.now) - started + WaitFor(challenge) < config.maxDuration
      ensures !requeued && url !in retried ==> world.now - started + WaitFor(challenge) >= config.maxDuration
    {
      ApplyBackoff(urls.hostOf(url));
      if url in retried {
        return false, queue, retried;
      }
      var wait := WaitFor(challenge);
      var now := world.Monotonic();
      var remaining := config.maxDuration - (now - started);
      if remaining <= wait {
        return false, queue, retried;
      }
      WaitOut(urls.hostOf(url), wait);
      return true, queue + [Entry(url, depth)], retried + {url};
    }

    /** A challenged head of the queue goes to the end of it once, or is settled. */
    method MeetChallenge(f: Frontier, reply: Reply, challenge: Challenge, chain: seq<string>, started: real)
      returns (g: Frontier, requeued: bool)
      requires Valid() && f.queue != []
      modifies this`hostDelay, this`signals, this`lastRequest, world
      ensures Valid() && old(world.now) <= world.now
      ensures TakesTurn(f, Pass(chain, Challenged(reply, challenge), requeued), g, config.maxDepth)
      ensures SignalsFollow(old(signals), signals, urls.hostOf(f.queue[0].url), Challenged(reply, challenge))
    {
      var Entry(requested, depth) := f.queue[0];
      var queue, retried;
      requeued, queue, retried :=
        RequeueAfterChallenge(requested, depth, challenge, f.queue[1..], f.retried, started);
      if requeued {
        g := f.(queue := queue, retried := retried);
      } else {
        g := SettleChallenge(f, reply, challenge, chain);
      }
    }

    /** What the outcome of a fetch does to the frontier. */
    method Settle(f: Frontier, outcome: FetchOutcome, chain: seq<string>, started: real)
      returns (g: Frontier, requeued: bool)
      requires Valid() && f.queue != []
      modifies this`hostDelay, this`signals, this`lastRequest, world
      ensures Valid() && old(world.now) <= world.now
      ensures TakesTurn(f, Pass(chain, outcome, requeued), g, config.maxDepth)
      ensures requeued ==> outcome.Challenged?
      ensures SignalsFollow(old(signals), signals, urls.hostOf(f.queue[0].url), outcome)
    {
      requeued := false;
      match outcome
      case Challenged(reply, challenge) =>
        g, requeued := MeetChallenge(f, reply, challenge, chain, started);
      case Refused(refusal) =>
        g := SettleRefusal(f, refusal, chain);
      case Fetched(reply) =>
        g := SettleVisit(f, reply, chain, config.maxDepth);
    }

    /** One pass of the crawl loop: the head of the queue is fetched and settled,
        visited or requeued; a challenge is a signal of its host. */
    method OnePass(f: Frontier, started: real)
      returns (g: Frontier, ghost pass: Pass, ghost replies: seq<Reply>, ghost sent: nat)
      requires Valid() && f.queue != []
      modifies this, world, robots
      ensures Valid() && old(world.now) <= world.now
      ensures TakesTurn(f, pass, g, config.maxDepth) && Happened(f, pass, g, config.maxDepth)
      ensures IsChain(f.queue[0].url, pass.chain, replies) && EndsWith(pass.chain, replies, pass.outcome)
      ensures pass.requeued ==> pass.outcome.Challenged?
      ensures FetchedSince(old(fetches), pass.chain, sent) && SentFits(sent, replies, pass.outcome)
      ensures SignalsFollow(old(signals), signals, urls.hostOf(f.queue[0].url), pass.outcome)
    {
      var outcome, chain, requeued;
      outcome, chain, replies, sent := FetchFollowingRedirects(f.queue[0].url);
      g, requeued := Settle(f, outcome, chain, started);
      pass := Pass(chain, outcome, requeued);
      TurnHappened(f, pass, g, config.maxDepth);
    }

    /** A seed without a normal form, or outside the approved domains. */
    predicate Rejected(seed: string) {
      urls.normalize(seed).None? || !urls.approved(urls.normalize(seed).value)
    }

    /** The normal forms of the seeds before the first rejected one. */
    function NormalSeeds(seeds: seq<string>): (normal: seq<string>)
      ensures |normal| <= |seeds|
    {
      if seeds == [] then []
      else
        var n := |seeds| - 1;
        var normal := NormalSeeds(seeds[..n]);
        if |normal| < n || Rejected(seeds[n]) then normal else normal + [urls.normalize(seeds[n]).value]
    }

    /** What becomes of seeds: each before the first rejected one has its normal form
        at an approved host; that one has none, or not there. */
    ghost predicate SeedsRead(seeds: seq<string>, normal: seq<string>) {
      && |normal| <= |seeds|
      && (forall i :: 0 <= i < |normal| ==> urls.normalize(seeds[i]) == Some(normal[i]) && urls.approved(normal[i]))
      && (|normal| < |seeds| ==>
            urls.normalize(seeds[|normal|]) == None || !urls.approved(urls.normalize(seeds[|normal|]).value))
    }

    lemma {:induction false} NormalSeedsAre(seeds: seq<string>)
      ensures SeedsRead(seeds, NormalSeeds(seeds))
    {
      if seeds != [] {
        var n := |seeds| - 1;
        NormalSeedsAre(seeds[..n]);
        var normal := NormalSeeds(seeds[..n]);
        assert forall i :: 0 <= i < n ==> seeds[..n][i] == seeds[i];
        if |normal| == n && !Rejected(seeds[n]) {
          assert NormalSeeds(seeds) == normal + [urls.normalize(seeds[n]).value];
        }
      }
    }

    lemma {:induction false} RejectedSeedStops(seeds: seq<string>, k: nat)
      requires k <= |seeds| && |NormalSeeds(seeds[..k])| < k
      ensures NormalSeeds(seeds) == NormalSeeds(seeds[..k])
      decreases |seeds| - k
    {
      if k < |seeds| {
        assert seeds[..k + 1][..k] == seeds[..k];
        RejectedSeedStops(seeds, k + 1);
      } else {
        assert seeds[..k] == seeds;
      }
    }

    /** The seeds in normal form, each at an approved host; one that is not stops
        the crawl before it starts. */
    method SeedQueue(seeds: seq<string>) returns (f: Option<Frontier>)
      ensures var normal := NormalSeeds(seeds);
        f == if |normal| == |seeds| then Some(Seeded(normal)) else None
    {
      var queue: seq<Entry>, discovered: set<string> := [], {};
      for i := 0 to |seeds|
        invariant |NormalSeeds(seeds[..i])| == i
        invariant Frontier(queue, discovered, {}, [], []) == Seeded(NormalSeeds(seeds[..i]))
      {
        assert seeds[..i + 1][..i] == seeds[..i];
        var seed := urls.normalize(seeds[i]);
        if seed.None? || !urls.approved(seed.value) {
          RejectedSeedStops(seeds, i + 1);
          return None;
        }
        assert (NormalSeeds(seeds[..i]) + [seed.value])[..i] == NormalSeeds(seeds[..i]);
        if seed.value !in discovered {
          discovered := discovered + {seed.value};
          queue := queue + [Entry(seed.value, 0)];
        }
      }
      assert seeds[..|seeds|] == seeds;
      return Some(Frontier(queue, discovered, {}, [], []));
    }

    /** The pass followed a redirect chain of the URL to the end it reports. */
    ghost predicate Explained(url: string, pass: Pass) {
      && (exists replies :: IsChain(url, pass.chain, replies) && EndsWith(pass.chain, replies, pass.outcome))
      && (pass.requeued ==> pass.outcome.Challenged?)
    }

    ghost predicate AllExplained(trace: Trace) {
      && |trace.passes| <= |trace.states|
      && (forall k :: 0 <= k < |trace.passes| ==>
            trace.states[k].queue != [] && Explained(trace.states[k].queue[0].url, trace.passes[k]))
    }

    lemma StillExplained(trace: Trace, pass: Pass, longer: Trace)
      requires AllExplained(trace) && |trace.states| == |trace.passes| + 1
      requires longer.passes == trace.passes + [pass] && |longer.states| == |trace.states| + 1
      requires longer.states[..|trace.states|] == trace.states
      requires trace.Last().queue != [] && Explained(trace.Last().queue[0].url, pass)
      ensures AllExplained(longer)
    {
      assert forall k :: 0 <= k < |trace.states| ==>
        longer.states[k] == longer.states[..|trace.states|][k] == trace.states[k];
    }

    /** The trace tells, pass by pass, how the crawl came to this frontier. */
    ghost predicate IsToldBy(f: Frontier, seeds: seq<string>, trace: Trace) {
      Accepted(config) && Tells(seeds, config.maxDepth, trace) && trace.Last() == f && AllExplained(trace)
    }

    /** A pass extends a trace by a turn that records an outcome or spends a retry. */
    lemma TraceGrows(seeds: seq<string>, trace: Trace, f: Frontier, pass: Pass, g: Frontier, replies: seq<Reply>)
      returns (longer: Trace)
      requires IsToldBy(f, seeds, trace) && f.queue != []
      requires TakesTurn(f, pass, g, config.maxDepth)
      requires IsChain(f.queue[0].url, pass.chain, replies) && EndsWith(pass.chain, replies, pass.outcome)
      requires pass.requeued ==> pass.outcome.Challenged?
      ensures IsToldBy(g, seeds, longer)
      ensures longer.passes == trace.passes + [pass]
      ensures Recorded(f) <= Recorded(g) <= Recorded(f) + 2
      ensures Recorded(g) == Recorded(f) ==> |g.discovered - g.retried| < |f.discovered - f.retried|
    {
      HeadIsDiscovered(seeds, config.maxDepth, trace);
      AdvanceMakesProgress(f, TurnFor(f.queue[0].url, pass), config.maxDepth);
      LongerTells(seeds, config.maxDepth, trace, pass);
      longer := Longer(trace, pass, config.maxDepth);
      StillExplained(trace, pass, longer);
    }

    /** One pass, added to the trace, its signal counted. */
    method TracedPass(f: Frontier, started: real, ghost seeds: seq<string>, ghost trace: Trace,
                      ghost before: map<string, nat>)
      returns (g: Frontier, ghost longer: Trace)
      requires Valid() && f.queue != [] && IsToldBy(f, seeds, trace)
      requires SignalsCounted(urls.hostOf, before, signals, trace.passes)
      modifies this, world, robots
      ensures Valid() && old(world.now) <= world.now && IsToldBy(g, seeds, longer)
      ensures SignalsCounted(urls.hostOf, before, signals, longer.passes)
      ensures Recorded(f) <= Recorded(g) <= Recorded(f) + 2
      ensures Recorded(g) == Recorded(f) ==> |g.discovered - g.retried| < |f.discovered - f.retried|
    {
      ghost var mid := signals;
      ghost var pass, replies, sent;
      g, pass, replies, sent := OnePass(f, started);
      longer := TraceGrows(seeds, trace, f, pass, g, replies);
      OneMorePass(urls.hostOf, before, mid, signals, trace.passes, pass);
    }

    /** Whether a budget is used up; the clock is read only if there is room for more
        outcomes. */
    method BudgetSpent(f: Frontier, started: real) returns (spent: Option<StopReason>)
      requires Valid()
      modifies world
      ensures Valid() && old(world.now) <= world.now
      ensures match spent
        case None => Recorded(f) < config.maxPages && world.now - started < config.maxDuration
        case Some(reason) =>
          && (reason == PageBudgetReached <==> Recorded(f) >= config.maxPages)
          && (reason == DurationBudgetReached <==> Recorded(f) < config.maxPages)
          && (reason == DurationBudgetReached ==> world.now - started >= config.maxDuration)
          && reason != QueueExhausted
    {
      if |f.pages| + |f.failures| >= config.maxPages {
        return Some(PageBudgetReached);
      }
      var now := world.Monotonic();
      return if now - started >= config.maxDuration then Some(DurationBudgetReached) else None;
    }

    /** The trace before the first pass. */
    lemma FreshTrace(seeds: seq<string>) returns (trace: Trace)
      requires Accepted(config)
      ensures IsToldBy(Seeded(seeds), seeds, trace) && trace.passes == []
    {
      trace := Trace([], [Seeded(seeds)], [Deepen(map[], seeds, 0)], []);
    }

    /** The crawl loop.  `trace` tells its passes; what holds at every loop head
        of a trace is proved in `CrawlFrontier`.  Every host ends with a delay that
        its challenged passes account for. */
    method CrawlLoop(start: Frontier, ghost seeds: seq<string>)
      returns (f: Frontier, stopped: StopReason, ghost trace: Trace)
      requires Valid() && start == Seeded(seeds)
      modifies this, world, robots
      ensures Valid() && old(world.now) <= world.now && IsToldBy(f, seeds, trace)
      ensures SignalsCounted(urls.hostOf, old(signals), signals, trace.passes)
      ensures Recorded(f) <= config.maxPages + 1
      ensures match stopped
        case QueueExhausted => f.queue == []
        case PageBudgetReached => Recorded(f) >= config.maxPages
        case DurationBudgetReached => world.now - old(world.now) >= config.maxDuration
    {
      f := start;
      trace := FreshTrace(seeds);
      EnqueueKeepsRetried(Frontier([], {}, {}, [], []), seeds, 0);
      var started := world.Monotonic();
      stopped := QueueExhausted;
      while f.queue != []
        invariant Valid() && old(world.now) <= started <= world.now
        invariant IsToldBy(f, seeds, trace)
        invariant SignalsCounted(urls.hostOf, old(signals), signals, trace.passes)
        invariant Recorded(f) <= config.maxPages + 1 && stopped == QueueExhausted
        decreases config.maxPages + 1 - Recorded(f), |f.discovered - f.retried|
      {
        var spent := BudgetSpent(f, started);
        if spent.Some? {
          return f, spent.value, trace;
        }
        f, trace := TracedPass(f, started, seeds, trace, old(signals));
      }
    }

    /** The crawl: refused without seeds or for a rejected one; otherwise its result
        summarises the last state of a run of turns from the normalised seeds. */
    method Crawl(seeds: seq<string>) returns (result: Result<CrawlResult, CrawlError>, ghost trace: Trace)
      requires Valid()
      modifies this, world, robots
      ensures Valid()
      ensures SignalsCounted(urls.hostOf, old(signals), signals, trace.passes)
      ensures result == Err(NoSeeds) <==> seeds == []
      ensures result == Err(SeedRejected) <==> |NormalSeeds(seeds)| < |seeds|
      ensures SeedsRead(seeds, NormalSeeds(seeds))
      ensures result.Ok? ==> Tells(NormalSeeds(seeds), config.maxDepth, trace) && AllExplained(trace)
      ensures result.Ok? ==> AllHappened(trace, config.maxDepth)
      ensures result.Ok? ==> Summarises(result.value, trace.Last())
      ensures result.Ok? ==> |result.value.pages| + |result.value.failures| <= config.maxPages + 1
      ensures result.Ok? ==> match result.value.stopped
        case QueueExhausted => trace.Last().queue == []
        case PageBudgetReached => |result.value.pages| + |result.value.failures| >= config.maxPages
        case DurationBudgetReached => world.now - old(world.now) >= config.maxDuration
    {
      NormalSeedsAre(seeds);
      trace := Trace([], [Seeded([])], [map[]], []);
      if seeds == [] {
        return Err(NoSeeds), trace;
      }
      var start := SeedQueue(seeds);
      if start.None? {
        return Err(SeedRejected), trace;
      }
      var f, stopped;
      f, stopped, trace := CrawlLoop(start.value, NormalSeeds(seeds));
      TellsWhatHappened(NormalSeeds(seeds), config.maxDepth, trace);
      result := Ok(CrawlResult(f.pages, f.failures, |f.discovered|, stopped,
                               ChallengedPages(f.pages), RateLimitedPages(f.pages)));
    }
  }

  /** What one pass over the popped URL saw and decided. */
  datatype Pass = Pass(chain: seq<string>, outcome: FetchOutcome, requeued: bool)

  /** A challenge is one more signal of the host asked; nothing else is one. */
  ghost predicate SignalsFollow(
    before: map<string, nat>, signals: map<string, nat>, host: string, outcome: FetchOutcome)
  {
    signals == if outcome.Challenged? then before[host := SignalsOf(before, host) + 1] else before
  }

  /** How many passes over URLs of a host met a challenge. */
  function ChallengedPasses(hostOf: string -> string, passes: seq<Pass>, host: string): nat {
    if passes == [] then 0
    else
      var last := passes[|passes| - 1];
      ChallengedPasses(hostOf, passes[..|passes| - 1], host)
        + (if last.outcome.Challenged? && last.chain != [] && hostOf(last.chain[0]) == host then 1 else 0)
  }

  /** Each host has sent as many signals since `before` as passes over its URLs
      were challenged. */
  ghost predicate SignalsCounted(hostOf: string -> string, before: map<string, nat>, signals: map<string, nat>,
                                 passes: seq<Pass>)
  {
    forall h :: SignalsOf(signals, h) == SignalsOf(before, h) + ChallengedPasses(hostOf, passes, h)
  }

  lemma {:induction false} OneMorePass(hostOf: string -> string, before: map<string, nat>, mid: map<string, nat>,
                                       signals: map<string, nat>, passes: seq<Pass>, pass: Pass)
    requires SignalsCounted(hostOf, before, mid, passes)
    requires pass.chain != [] && SignalsFollow(mid, signals, hostOf(pass.chain[0]), pass.outcome)
    ensures SignalsCounted(hostOf, before, signals, passes + [pass])
  {
    assert (passes + [pass])[..|passes|] == passes;
  }

  function LinksOf(html: Html): seq<string> {
    if html.Parsed? then html.links else []
  }

  /** The turn a pass amounts to. */
  function TurnFor(url: string, pass: Pass): Turn {
    match pass.outcome
    case Refused(_) => Dropped(Failure(url, FetchFailed, None))
    case Challenged(reply, challenge) =>
      if pass.requeued then Requeued
      else
        Quarantined(Page(url, reply.url, reply.response.status, [], pass.chain, Some(challenge)),
                    Failure(url, ChallengeResponse, Some(challenge)))
    case Fetched(reply) =>
      Visited(Page(url, reply.url, reply.response.status, LinksOf(reply.response.html), pass.chain, None),
              if reply.response.html.Unparsable? then [Failure(url, ParseFailed, None)] else [])
  }

  // ------------------------------------- what a pass does, told by the replies

  /** The page is that of the reply: its links are those of the parsed body, and
      none if it was not parsed. */
  ghost predicate IsPageOf(page: Page, url: string, chain: seq<string>, reply: Reply) {
    && page.requested == url && page.final == reply.url && page.status == reply.response.status
    && page.redirects == chain && page.challenge == None
    && match reply.response.html
       case Parsed(links) => page.links == links
       case NotHtml => page.links == []
       case Unparsable => page.links == []
  }

  /** Above the depth limit the links of a parsed body are discovered, and those not
      known before wait in the queue, one level deeper than the page. */
  ghost predicate FollowsLinks(f: Frontier, g: Frontier, html: Html, maxDepth: nat)
    requires f.queue != []
  {
    var depth := f.queue[0].depth;
    if html.Parsed? && depth < maxDepth then
      && (forall u :: u in g.discovered <==> u in f.discovered || u in html.links)
      && f.queue[1..] <= g.queue
      && (forall i :: |f.queue| - 1 <= i < |g.queue| ==>
            g.queue[i].depth == depth + 1 && g.queue[i].url in html.links && g.queue[i].url !in f.discovered)
      && (forall u :: u in html.links && u !in f.discovered ==> Entry(u, depth + 1) in g.queue)
    else g.discovered == f.discovered && g.queue == f.queue[1..]
  }

  ghost predicate Happened(f: Frontier, pass: Pass, g: Frontier, maxDepth: nat)
    requires f.queue != []
  {
    var url := f.queue[0].url;
    match pass.outcome
    case Refused(_) =>
      g == f.(queue := f.queue[1..], failures := f.failures + [Failure(url, FetchFailed, None)])
    case Challenged(reply, challenge) =>
      if pass.requeued then
        url !in f.retried && g == f.(queue := f.queue[1..] + [f.queue[0]], retried := f.retried + {url})
      else
        g == f.(queue := f.queue[1..],
                pages := f.pages + [Page(url, reply.url, reply.response.status, [], pass.chain, Some(challenge))],
                failures := f.failures + [Failure(url, ChallengeResponse, Some(challenge))])
    case Fetched(reply) =>
      && |g.pages| == |f.pages| + 1 && f.pages <= g.pages
      && IsPageOf(g.pages[|f.pages|], url, pass.chain, reply)
      && g.failures == f.failures
                       + (if reply.response.html == Unparsable then [Failure(url, ParseFailed, None)] else [])
      && g.retried == f.retried && FollowsLinks(f, g, reply.response.html, maxDepth)
  }

  lemma {:induction false} LinksAreFollowedOnce(f: Frontier, links: seq<string>, depth: nat)
    ensures var g := Enqueue(f, links, depth);
      && (forall u :: u in g.discovered <==> u in f.discovered || u in links)
      && f.queue <= g.queue
      && (forall u :: u in links && u !in f.discovered ==> Entry(u, depth) in g.queue)
  {
    if links != [] {
      var n := |links| - 1;
      LinksAreFollowedOnce(f, links[..n], depth);
      var g := Enqueue(f, links[..n], depth);
      assert links == links[..n] + [links[n]];
      assert forall e :: e in g.queue ==> e in g.queue + [Entry(links[n], depth)];
    }
  }

  lemma {:induction false} VisitHappened(f: Frontier, pass: Pass, maxDepth: nat)
    requires f.queue != [] && pass.outcome.Fetched?
    ensures Happened(f, pass, Advance(f, TurnFor(f.queue[0].url, pass), maxDepth), maxDepth)
  {
    var turn := TurnFor(f.queue[0].url, pass);
    var read := Pop(f).(pages := f.pages + [turn.page], failures := f.failures + turn.parseFailure);
    LinksAreFollowedOnce(read, turn.page.links, f.queue[0].depth + 1);
    EnqueueAddsATail(read, turn.page.links, f.queue[0].depth + 1);
    EnqueueKeepsRetried(read, turn.page.links, f.queue[0].depth + 1);
  }

  /** The turn of a pass is what its reply calls for. */
  lemma {:induction false} TurnHappened(f: Frontier, pass: Pass, g: Frontier, maxDepth: nat)
    requires f.queue != [] && TakesTurn(f, pass, g, maxDepth)
    ensures Happened(f, pass, g, maxDepth)
  {
    if pass.outcome.Fetched? { VisitHappened(f, pass, maxDepth); }
  }

  /** So in every crawl, at every pass. */
  ghost predicate AllHappened(trace: Trace, maxDepth: nat) {
    && |trace.states| == |trace.passes| + 1
    && forall k :: 0 <= k < |trace.passes| ==>
         trace.states[k].queue != [] && Happened(trace.states[k], trace.passes[k], trace.states[k + 1], maxDepth)
  }

  lemma TellsWhatHappened(seeds: seq<string>, maxDepth: nat, trace: Trace)
    requires Tells(seeds, maxDepth, trace)
    ensures AllHappened(trace, maxDepth)
  {
    forall k | 0 <= k < |trace.passes|
      ensures trace.states[k].queue != []
      ensures Happened(trace.states[k], trace.passes[k], trace.states[k + 1], maxDepth)
    {
      assert Follows(trace.states[k], trace.turns[k], trace.states[k + 1],
                     trace.depths[k], trace.depths[k + 1], maxDepth);
      TurnHappened(trace.states[k], trace.passes[k], trace.states[k + 1], maxDepth);
    }
  }

  /** The inner loop of a visit: links not seen before join the queue. */
  method EnqueueLinks(queue: seq<Entry>, discovered: set<string>, links: seq<string>, depth: nat, ghost f: Frontier)
    returns (queue': seq<Entry>, discovered': set<string>)
    requires f.queue == queue && f.discovered == discovered
    ensures f.(queue := queue', discovered := discovered') == Enqueue(f, links, depth)
  {
    queue', discovered' := queue, discovered;
    for i := 0 to |links|
      invariant f.(queue := queue', discovered := discovered') == Enqueue(f, links[..i], depth)
    {
      assert links[..i + 1][..i] == links[..i];
      var link := links[i];
      if link !in discovered' {
        discovered' := discovered' + {link};
        queue' := queue' + [Entry(link, depth)];
      }
    }
    assert links[..|links|] == links;
  }

  /** The pass amounts to a turn of the frontier, and the frontier took it. */
  ghost predicate TakesTurn(f: Frontier, pass: Pass, g: Frontier, maxDepth: nat)
    requires f.queue != []
  {
    Fits(f, TurnFor(f.queue[0].url, pass)) && g == Advance(f, TurnFor(f.queue[0].url, pass), maxDepth)
  }

  /** A refused URL: a failure. */
  method SettleRefusal(f: Frontier, refusal: Refusal, chain: seq<string>) returns (g: Frontier)
    requires f.queue != []
    ensures TakesTurn(f, Pass(chain, Refused(refusal), false), g, 0)
  {
    g := f.(queue := f.queue[1..], failures := f.failures + [Failure(f.queue[0].url, FetchFailed, None)]);
  }

  /** A quarantined URL: a page without content, and a failure. */
  method SettleChallenge(f: Frontier, reply: Reply, challenge: Challenge, chain: seq<string>) returns (g: Frontier)
    requires f.queue != []
    ensures g == Advance(f, TurnFor(f.queue[0].url, Pass(chain, Challenged(reply, challenge), false)), 0)
  {
    var requested := f.queue[0].url;
    var page := Page(requested, reply.url, reply.response.status, [], chain, Some(challenge));
    g := f.(queue := f.queue[1..], pages := f.pages + [page],
            failures := f.failures + [Failure(requested, ChallengeResponse, Some(challenge))]);
  }

  /** A page that was read: its record, a parse failure if its HTML was unusable,
      and its new links unless it lies at the depth limit. */
  method SettleVisit(f: Frontier, reply: Reply, chain: seq<string>, maxDepth: nat) returns (g: Frontier)
    requires f.queue != []
    ensures g == Advance(f, TurnFor(f.queue[0].url, Pass(chain, Fetched(reply), false)), maxDepth)
  {
    var Entry(requested, depth) := f.queue[0];
    var failures := f.failures;
    if reply.response.html.Unparsable? {
      failures := failures + [Failure(requested, ParseFailed, None)];
    }
    assert failures == f.failures
      + (if reply.response.html.Unparsable? then [Failure(requested, ParseFailed, None)] else []);
    var links := LinksOf(reply.response.html);
    var pages := f.pages + [Page(requested, reply.url, reply.response.status, links, chain, None)];
    g := f.(queue := f.queue[1..], pages := pages, failures := failures);
    if depth < maxDepth {
      var queue, discovered := EnqueueLinks(g.queue, g.discovered, links, depth + 1, g);
      g := g.(queue := queue, discovered := discovered);
    }
  }

  datatype CrawlError = NoSeeds | SeedRejected

  datatype StopReason = QueueExhausted | PageBudgetReached | DurationBudgetReached

  datatype CrawlResult = CrawlResult(
    pages: seq<Page>, failures: seq<Failure>, discoveredCount: nat, stopped: StopReason,
    challengedCount: nat, rateLimitedCount: nat)

  function ChallengedPages(pages: seq<Page>): (n: nat)
    ensures n == |set i | 0 <= i < |pages| && pages[i].challenge.Some?|
  {
    if pages == [] then 0
    else
      var n := |pages| - 1;
      ghost var now, before := set i | 0 <= i < |pages| && pages[i].challenge.Some?,
        set i | 0 <= i < n && pages[..n][i].challenge.Some?;
      assert now == before + (if pages[n].challenge.Some? then {n} else {});
      ChallengedPages(pages[..n]) + (if pages[n].challenge.Some? then 1 else 0)
  }

  function RateLimitedPages(pages: seq<Page>): (n: nat)
    ensures n == |set i | 0 <= i < |pages| && IsRateLimited(pages[i])|
  {
    if pages == [] then 0
    else
      var n := |pages| - 1;
      ghost var now, before := set i | 0 <= i < |pages| && IsRateLimited(pages[i]),
        set i | 0 <= i < n && IsRateLimited(pages[..n][i]);
      assert now == before + (if IsRateLimited(pages[n]) then {n} else {});
      RateLimitedPages(pages[..n])
        + (if pages[n].challenge.Some? && pages[n].challenge.value.kind == RateLimited then 1 else 0)
  }

  ghost predicate IsRateLimited(page: Page) {
    page.challenge.Some? && page.challenge.value.kind.RateLimited?
  }

  ghost predicate Summarises(result: CrawlResult, f: Frontier) {
    && result.pages == f.pages && result.failures == f.failures && result.discoveredCount == |f.discovered|
    && result.challengedCount == ChallengedPages(f.pages) && result.rateLimitedCount == RateLimitedPages(f.pages)
  }

  /** The passes of a crawl and the frontier at each loop head. */
  datatype Trace = Trace(turns: seq<Turn>, states: seq<Frontier>, depths: seq<map<string, nat>>, passes: seq<Pass>) {
    ghost function Last(): Frontier
      requires states != []
    {
      states[|states| - 1]
    }
  }

  /** The trace is a run of turns from the seeds, each turn read off its pass. */
  ghost predicate Tells(seeds: seq<string>, maxDepth: nat, trace: Trace) {
    && TurnRun(seeds, maxDepth, trace.turns, trace.states, trace.depths)
    && |trace.passes| == |trace.turns|
    && (forall k :: 0 <= k < |trace.turns| ==>
          trace.states[k].queue != [] && trace.turns[k] == TurnFor(trace.states[k].queue[0].url, trace.passes[k]))
  }

  ghost function Longer(trace: Trace, pass: Pass, maxDepth: nat): Trace
    requires trace.states != [] && trace.depths != []
    requires trace.Last().queue != [] && Fits(trace.Last(), TurnFor(trace.Last().queue[0].url, pass))
  {
    var f := trace.Last();
    var turn := TurnFor(f.queue[0].url, pass);
    Trace(trace.turns + [turn], trace.states + [Advance(f, turn, maxDepth)],
          trace.depths + [AdvanceDepths(f, turn, trace.depths[|trace.depths| - 1], maxDepth)], trace.passes + [pass])
  }

  lemma LongerTells(seeds: seq<string>, maxDepth: nat, trace: Trace, pass: Pass)
    requires Tells(seeds, maxDepth, trace) && trace.Last().queue != []
    requires Fits(trace.Last(), TurnFor(trace.Last().queue[0].url, pass))
    ensures Tells(seeds, maxDepth, Longer(trace, pass, maxDepth))
  {
    var longer := Longer(trace, pass, maxDepth);
    var n := |trace.turns|;
    assert trace.Last() == trace.states[n];
    forall k | 0 <= k <= n
      ensures longer.states[k].queue != []
      ensures longer.turns[k] == TurnFor(longer.states[k].queue[0].url, longer.passes[k])
      ensures Follows(longer.states[k], longer.turns[k], longer.states[k + 1],
                      longer.depths[k], longer.depths[k + 1], maxDepth)
    {
      if k < n {
        assert Follows(trace.states[k], trace.turns[k], trace.states[k + 1],
                       trace.depths[k], trace.depths[k + 1], maxDepth);
      }
    }
  }

  lemma HeadIsDiscovered(seeds: seq<string>, maxDepth: nat, trace: Trace)
    requires Tells(seeds, maxDepth, trace) && trace.Last().queue != []
    ensures trace.Last().queue[0].url in trace.Last().discovered
  {
    EveryLoopHeadIsSound(seeds, maxDepth, trace.turns, trace.states, trace.depths, |trace.turns|);
    assert trace.Last().queue[0] in trace.Last().queue;
  }

  /** The whole story of a crawl: the pages' requested URLs are distinct, no URL
      is attempted more than twice, an exhausted queue leaves no discovered URL
      without an outcome, depths are lengths of real link paths, and without
      requeues they are shortest distances and the discovered URLs are exactly
      those within `maxDepth` links of the seeds; with requeues they are shortest
      exactly if no followed link was discovered more than one level deeper. */
  lemma CrawlIsSound(seeds: seq<string>, maxDepth: nat, trace: Trace)
    requires Tells(seeds, maxDepth, trace)
    ensures var f, depthOf := trace.Last(), trace.depths[|trace.depths| - 1];
      && DistinctPages(f.pages)
      && (forall u :: Tried(trace.states, |trace.turns|)[u] <= 2)
      && (f.queue == [] ==> forall u :: u in f.discovered ==>
            (exists p :: p in f.pages && p.requested == u) || (exists x :: x in f.failures && x.url == u))
      && depthOf.Keys == f.discovered
      && (forall u :: u in f.discovered ==> depthOf[u] <= maxDepth && ReachedIn(f.pages, seeds, u, depthOf[u]))
      && (DepthsAreShortest(f, seeds, depthOf) <==> forall p :: p in f.pages ==> LinksStep(p, depthOf, maxDepth))
      && (f.retried == {} ==>
            && (forall u, n: nat :: u in f.discovered && ReachedIn(f.pages, seeds, u, n) ==> depthOf[u] <= n)
            && (forall u :: u in f.discovered <==> exists n: nat :: n <= maxDepth && ReachedIn(f.pages, seeds, u, n)))
  {
    var f, depthOf := trace.Last(), trace.depths[|trace.depths| - 1];
    EveryLoopHeadIsSound(seeds, maxDepth, trace.turns, trace.states, trace.depths, |trace.turns|);
    AttemptsAndOutcomes(f, Tried(trace.states, |trace.turns|));
    DepthsAreShortestIff(f, seeds, depthOf, maxDepth);
    if f.retried == {} {
      DepthIsShortestDistance(f, seeds, depthOf, maxDepth);
    }
  }
}
