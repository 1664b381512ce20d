/** How fast the crawler may go: the configuration, the per-host delay and its
    backoff, and the spacing of throttled requests
    (audit_engine/crawler.py:181-220, 693-718). */
module CrawlPacing {

  datatype Config = Config(
    domains: nat, maxPages: int, maxDepth: int, maxDuration: real, requestTimeout: real,
    maxBodyBytes: int, maxRobotsBytes: int, maxRedirects: int, minDelay: real,
    obeyRobots: bool, multiplier: real, maxDelay: real, maxRetryAfter: real)

  /** What the configuration's own checks let through. */
  predicate Accepted(c: Config) {
    && c.domains > 0
    && c.maxPages >= 1 && c.maxDepth >= 0 && c.maxRedirects >= 0
    && c.maxDuration > 0.0 && c.requestTimeout > 0.0 && c.maxBodyBytes > 0 && c.maxRobotsBytes > 0
    && c.minDelay >= 0.0 && c.multiplier >= 1.0
    && c.maxDelay >= c.minDelay && c.maxRetryAfter >= 0.0
  }

  /** What makes a configuration unacceptable. */
  lemma RefusedIff(c: Config)
    ensures !Accepted(c) <==>
      || c.domains <= 0 || c.maxPages <= 0 || c.maxDepth < 0 || c.maxRedirects < 0
      || c.maxDuration <= 0.0 || c.requestTimeout <= 0.0 || c.maxBodyBytes <= 0 || c.maxRobotsBytes <= 0
      || c.minDelay < 0.0 || c.multiplier < 1.0 || c.maxDelay < c.minDelay || c.maxRetryAfter < 0.0
  {
  }

  function Min(a: real, b: real): real { if a <= b then a else b }

  function Max(a: real, b: real): real { if a >= b then a else b }

  /** One backoff: the delay is multiplied and capped, and a zero delay becomes a
      real one. */
  function NextDelay(c: Config, current: real): real {
    var widened := Max(current, c.minDelay) * c.multiplier;
    var positive := if widened <= 0.0 then Min(1.0, c.maxDelay) else widened;
    Min(positive, c.maxDelay)
  }

  /** A delay below the minimum is widened like the minimum. */
  lemma MinimumFirst(c: Config, current: real)
    requires current <= c.minDelay
    ensures NextDelay(c, current) == NextDelay(c, c.minDelay)
  {
    assert Max(current, c.minDelay) == c.minDelay == Max(c.minDelay, c.minDelay);
  }

  function Power(base: real, k: nat): real {
    if k == 0 then 1.0 else Power(base, k - 1) * base
  }

  /** The closed form of the delay after `k` throttle signals. */
  function DelayAfter(c: Config, k: nat): real {
    if c.minDelay > 0.0 then Min(c.maxDelay, c.minDelay * Power(c.multiplier, k))
    else if k == 0 then c.minDelay
    else Min(c.maxDelay, Power(c.multiplier, k - 1))
  }

  lemma {:induction false} PowerGrows(base: real, k: nat)
    requires base >= 1.0
    ensures Power(base, k) >= 1.0 && Power(base, k + 1) >= Power(base, k)
  {
    if k > 0 { PowerGrows(base, k - 1); }
  }

  lemma MultiplyKeepsOrder(a: real, b: real, m: real)
    requires a <= b && m >= 0.0
    ensures a * m <= b * m
  {
  }

  /** Once capped, a delay stays capped. */
  lemma CapAbsorbs(c: Config, x: real)
    requires Accepted(c) && x > 0.0
    ensures Min(c.maxDelay, Min(c.maxDelay, x) * c.multiplier) == Min(c.maxDelay, x * c.multiplier)
  {
    if x >= c.maxDelay {
      MultiplyKeepsOrder(c.maxDelay, x, c.multiplier);
      MultiplyKeepsOrder(1.0, c.multiplier, c.maxDelay);
    }
  }

  lemma NextOfPositive(c: Config, delay: real)
    requires Accepted(c) && delay > 0.0 && delay >= c.minDelay
    ensures NextDelay(c, delay) == Min(c.maxDelay, delay * c.multiplier)
  {
    MultiplyKeepsOrder(1.0, c.multiplier, delay);
  }

  lemma ClosedFormFromPositive(c: Config, x: real)
    requires Accepted(c) && x > 0.0 && x >= c.minDelay && c.maxDelay > 0.0
    ensures NextDelay(c, Min(c.maxDelay, x)) == Min(c.maxDelay, x * c.multiplier)
  {
    NextOfPositive(c, Min(c.maxDelay, x));
    CapAbsorbs(c, x);
  }

  lemma TimesAssociates(a: real, b: real, m: real)
    ensures a * (b * m) == (a * b) * m
  {
  }

  lemma ScalingUp(m: real, p: real)
    requires m >= 0.0 && p >= 1.0
    ensures m * p >= m
  {
    assert m * p - m == m * (p - 1.0);
  }

  lemma NextOfScaled(c: Config, p: real, x: real, d: real, e: real)
    requires Accepted(c) && c.minDelay > 0.0 && p >= 1.0
    requires x == c.minDelay * p && d == Min(c.maxDelay, x) && e == Min(c.maxDelay, x * c.multiplier)
    ensures NextDelay(c, d) == e
  {
    ScalingUp(c.minDelay, p);
    ClosedFormFromPositive(c, x);
  }

  lemma ScaledStep(c: Config, k: nat) returns (p: real, x: real)
    requires Accepted(c) && c.minDelay > 0.0
    ensures p >= 1.0 && x == c.minDelay * p
    ensures DelayAfter(c, k) == Min(c.maxDelay, x) && DelayAfter(c, k + 1) == Min(c.maxDelay, x * c.multiplier)
  {
    p := Power(c.multiplier, k);
    x := c.minDelay * p;
    PowerGrows(c.multiplier, k);
    TimesAssociates(c.minDelay, p, c.multiplier);
  }

  lemma ClosedFormFromMinimum(c: Config, k: nat)
    requires Accepted(c) && c.minDelay > 0.0
    ensures NextDelay(c, DelayAfter(c, k)) == DelayAfter(c, k + 1)
  {
    var p, x := ScaledStep(c, k);
    NextOfScaled(c, p, x, DelayAfter(c, k), DelayAfter(c, k + 1));
  }

  lemma ClosedFormFromZero(c: Config, k: nat)
    requires Accepted(c) && c.minDelay == 0.0 && k > 0
    ensures NextDelay(c, DelayAfter(c, k)) == DelayAfter(c, k + 1)
  {
    var x := Power(c.multiplier, k - 1);
    PowerGrows(c.multiplier, k - 1);
    if c.maxDelay > 0.0 {
      ClosedFormFromPositive(c, x);
      assert Power(c.multiplier, k) == x * c.multiplier;
    } else {
      PowerGrows(c.multiplier, k);
      ZeroCapStaysZero(c);
    }
  }

  lemma ZeroCapStaysZero(c: Config)
    requires c.minDelay == 0.0 && c.maxDelay == 0.0
    ensures NextDelay(c, 0.0) == 0.0
  {
    assert Max(0.0, c.minDelay) == 0.0;
    assert 0.0 * c.multiplier == 0.0;
  }

  /** After `k` signals the multiplied-and-capped delay is the closed form. */
  lemma BackoffFollowsClosedForm(c: Config, k: nat)
    requires Accepted(c)
    ensures NextDelay(c, DelayAfter(c, k)) == DelayAfter(c, k + 1)
  {
    if c.minDelay > 0.0 {
      ClosedFormFromMinimum(c, k);
    } else if k > 0 {
      ClosedFormFromZero(c, k);
    } else {
      assert 0.0 * c.multiplier == 0.0;
      assert Power(c.multiplier, 0) == 1.0;
    }
  }

  lemma ScaledKeepsOrder(m: real, p: real, q: real, x: real, y: real)
    requires m >= 0.0 && 1.0 <= p <= q && x == m * p && y == m * q
    ensures m <= x <= y
  {
    assert x - m == m * (p - 1.0);
    assert y - x == m * (q - p);
  }

  lemma ScaledBounds(c: Config, k: nat) returns (x: real, y: real)
    requires Accepted(c) && c.minDelay > 0.0
    ensures DelayAfter(c, k) == Min(c.maxDelay, x) && DelayAfter(c, k + 1) == Min(c.maxDelay, y)
    ensures c.minDelay <= x <= y
  {
    var p, q := Power(c.multiplier, k), Power(c.multiplier, k + 1);
    x, y := c.minDelay * p, c.minDelay * q;
    assert p >= 1.0 && q >= p by { PowerGrows(c.multiplier, k); }
    ScaledKeepsOrder(c.minDelay, p, q, x, y);
  }

  /** Delays never shrink and stay between the configured bounds. */
  lemma DelaysGrowWithinBounds(c: Config, k: nat)
    requires Accepted(c)
    ensures DelayAfter(c, k) <= DelayAfter(c, k + 1)
    ensures c.minDelay <= DelayAfter(c, k) <= c.maxDelay
  {
    if c.minDelay > 0.0 {
      var x, y := ScaledBounds(c, k);
    } else if k > 0 {
      PowerGrows(c.multiplier, k - 1);
    }
  }

  // ------------------------------------------------------------- spacing

  /** A throttled request: its host, the clock when it was let through, and the
      host's delay at that moment. */
  datatype Slot = Slot(host: string, at: real, delay: real)

  ghost predicate Spaced(slots: seq<Slot>) {
    forall i, j :: 0 <= i < j < |slots| && slots[i].host == slots[j].host ==>
      slots[j].at - slots[i].at >= slots[j].delay >= slots[i].delay
  }

  function HostDelay(c: Config, hostDelay: map<string, real>, host: string): real {
    if host in hostDelay then hostDelay[host] else c.minDelay
  }

  /** The pacing state agrees with the number of signals each host has sent. */
  ghost predicate DelaysFollow(c: Config, hostDelay: map<string, real>, signals: map<string, nat>) {
    && hostDelay.Keys == signals.Keys
    && (forall h :: h in hostDelay ==> hostDelay[h] == DelayAfter(c, signals[h]))
  }

  /** Requests are spaced, and each host's last request is on record. */
  ghost predicate OnRecord(c: Config, slots: seq<Slot>, lastRequest: map<string, real>,
                           hostDelay: map<string, real>, now: real) {
    && Spaced(slots)
    && (forall i :: 0 <= i < |slots| ==>
          slots[i].host in lastRequest && slots[i].at <= lastRequest[slots[i].host]
          && slots[i].delay <= HostDelay(c, hostDelay, slots[i].host))
    && (forall h :: h in lastRequest ==> lastRequest[h] <= now)
  }

  ghost function SignalsOf(signals: map<string, nat>, host: string): nat {
    if host in signals then signals[host] else 0
  }

  lemma DelayIsClosedForm(c: Config, hostDelay: map<string, real>, signals: map<string, nat>, host: string)
    requires DelaysFollow(c, hostDelay, signals) && Accepted(c)
    ensures HostDelay(c, hostDelay, host) == DelayAfter(c, SignalsOf(signals, host))
    ensures c.minDelay <= HostDelay(c, hostDelay, host) <= c.maxDelay
  {
    DelaysGrowWithinBounds(c, SignalsOf(signals, host));
  }

  /** A throttled request at `at`, let through a full delay after the last one. */
  lemma SlotKeepsRecord(c: Config, slots: seq<Slot>, lastRequest: map<string, real>,
                        hostDelay: map<string, real>, now: real, host: string, at: real)
    requires OnRecord(c, slots, lastRequest, hostDelay, now) && now <= at
    requires host in lastRequest ==> at - lastRequest[host] >= HostDelay(c, hostDelay, host)
    ensures OnRecord(c, slots + [Slot(host, at, HostDelay(c, hostDelay, host))], lastRequest[host := at], hostDelay, at)
  {
  }

  /** A backoff only ever widens the delay, so nothing recorded is contradicted. */
  lemma BackoffKeepsRecord(c: Config, slots: seq<Slot>, lastRequest: map<string, real>,
                           hostDelay: map<string, real>, signals: map<string, nat>, now: real, host: string)
    requires Accepted(c) && DelaysFollow(c, hostDelay, signals)
    requires OnRecord(c, slots, lastRequest, hostDelay, now)
    ensures var delay := NextDelay(c, HostDelay(c, hostDelay, host));
      && DelaysFollow(c, hostDelay[host := delay], signals[host := SignalsOf(signals, host) + 1])
      && OnRecord(c, slots, lastRequest, hostDelay[host := delay], now)
  {
    DelayIsClosedForm(c, hostDelay, signals, host);
    BackoffFollowsClosedForm(c, SignalsOf(signals, host));
    DelaysGrowWithinBounds(c, SignalsOf(signals, host));
  }

  /** Moving a host's last request to the present keeps the record. */
  lemma TouchKeepsRecord(c: Config, slots: seq<Slot>, lastRequest: map<string, real>,
                         hostDelay: map<string, real>, now: real, host: string, at: real)
    requires OnRecord(c, slots, lastRequest, hostDelay, now) && now <= at
    ensures OnRecord(c, slots, lastRequest[host := at], hostDelay, at)
  {
  }
}
