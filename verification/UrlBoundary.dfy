/** Which URLs a run may touch (audit_engine/urls.py:147-162, 202-224): the host
    is an approved domain or lies below one, and every address it resolves to is
    public. */
module UrlBoundary {
  import opened Outcomes
  import opened Splitting
  import opened Text
  import opened Urls
  import opened UrlNormalForm
  import UrlAcceptance
  import UrlQuery
  import UrlPath

  predicate EndsWith(s: string, suffix: string) {
    |suffix| <= |s| && s[|s| - |suffix|..] == suffix
  }

  /** Equal to the boundary, or ending with a dot and the boundary. */
  predicate IsWithin(host: string, boundary: string) {
    host == boundary || EndsWith(host, "." + boundary)
  }

  /** The domain names as lists of labels: `upper` ends `lower`. */
  ghost predicate LabelsEnd(lower: seq<string>, upper: seq<string>) {
    |upper| <= |lower| && lower[|lower| - |upper|..] == upper
  }

  lemma {:induction false} WithinGivesLabels(host: string, boundary: string)
    requires IsWithin(host, boundary)
    ensures LabelsEnd(SplitOn(host, '.'), SplitOn(boundary, '.'))
  {
    if host != boundary {
      var front := host[..|host| - |boundary| - 1];
      assert host == front + ("." + boundary);
      assert host == front + ['.'] + boundary;
      SplitInTwo(front, boundary, '.');
    }
  }

  lemma {:induction false} LabelsGiveWithin(host: string, boundary: string)
    requires LabelsEnd(SplitOn(host, '.'), SplitOn(boundary, '.'))
    ensures IsWithin(host, boundary)
  {
    var lower, upper := SplitOn(host, '.'), SplitOn(boundary, '.');
    JoinOfSplit(host, '.');
    JoinOfSplit(boundary, '.');
    var front := lower[..|lower| - |upper|];
    assert lower == front + upper;
    if front != [] {
      JoinConcat(front, upper, '.');
      EndsWithDot(Join(front, '.'), boundary);
    }
  }

  lemma EndsWithDot(front: string, boundary: string)
    ensures EndsWith(front + ['.'] + boundary, "." + boundary)
  {
    assert front + ['.'] + boundary == front + ("." + boundary);
  }

  /** The textual test is the test on labels: nothing but whole labels may come
      before the boundary. */
  lemma {:induction false} WithinIffLabelsEnd(host: string, boundary: string)
    ensures IsWithin(host, boundary) <==> LabelsEnd(SplitOn(host, '.'), SplitOn(boundary, '.'))
  {
    if IsWithin(host, boundary) { WithinGivesLabels(host, boundary); }
    if LabelsEnd(SplitOn(host, '.'), SplitOn(boundary, '.')) { LabelsGiveWithin(host, boundary); }
  }

  /** Approval goes down: what lies within something approved is approved. */
  lemma WithinIsTransitive(host: string, middle: string, boundary: string)
    requires IsWithin(host, middle) && IsWithin(middle, boundary)
    ensures IsWithin(host, boundary)
  {
    WithinIffLabelsEnd(host, middle);
    WithinIffLabelsEnd(middle, boundary);
    WithinIffLabelsEnd(host, boundary);
    var h, m, b := SplitOn(host, '.'), SplitOn(middle, '.'), SplitOn(boundary, '.');
    assert h[|h| - |b|..] == h[|h| - |m|..][|m| - |b|..];
  }

  /** `host_is_allowed` on a canonical host: the domains are tried in order, and
      one that is not a host ends the search with an error. */
  function AnyBoundary(env: Env, host: string, domains: seq<string>): Result<bool, UrlError> {
    if domains == [] then Ok(false)
    else
      var boundary := CanonicalHost(env, domains[0]);
      if boundary.None? then Err(BadHost)
      else if IsWithin(host, boundary.value) then Ok(true)
      else AnyBoundary(env, host, domains[1..])
  }

  function HostIsAllowed(env: Env, host: string, domains: seq<string>): Result<bool, UrlError> {
    var canonical := CanonicalHost(env, host);
    if canonical.None? then Err(BadHost) else AnyBoundary(env, canonical.value, domains)
  }

  /** The host the parser reads off a URL text; it fails on mismatched brackets
      and on authorities it cannot check. */
  function ReadHost(env: Env, url: string): Result<string, UrlError> {
    var split := SplitUrl(url);
    if split.Err? then Err(split.error)
    else
      var netloc := split.value.netloc;
      if !env.authorityOk(netloc) || !BracketsOk(env, netloc) then Err(BadAuthority)
      else if HostAndPort(netloc).0 == "" then Err(NoHost)
      else Ok(HostAndPort(netloc).0)
  }

  /** The authority passes the parser's checks, and its host is not empty. */
  ghost predicate IsReadFrom(env: Env, netloc: string, host: string) {
    && host == HostAndPort(netloc).0 && host != "" && env.authorityOk(netloc)
    && (if '[' in netloc then ']' in netloc && env.bracketOk(host) else ']' !in netloc)
  }

  /** So a host is read off any URL whose authority normalisation would accept, and off
      some others: those with a user, a bad port, or a host that cannot be encoded. */
  lemma ReadHostIff(env: Env, url: string, host: string)
    ensures ReadHost(env, url) == Ok(host) <==> SplitUrl(url).Ok? && IsReadFrom(env, SplitUrl(url).value.netloc, host)
    ensures SplitUrl(url).Ok? ==>
      var netloc := SplitUrl(url).value.netloc;
      (Authority(env, netloc).Ok? <==>
         && ReadHost(env, url).Ok? && '@' !in netloc && UrlAcceptance.IsPortText(HostAndPort(netloc).1)
         && exists encoded :: UrlAcceptance.HostCanBeEncoded(env, ReadHost(env, url).value, encoded))
  {
    if SplitUrl(url).Ok? { UrlAcceptance.AuthorityIff(env, SplitUrl(url).value.netloc); }
  }

  /** The canonical form of that host, which the domains are compared with. */
  function ComparedHost(env: Env, url: string): Option<string> {
    var host := ReadHost(env, url);
    if host.Err? then None else CanonicalHost(env, host.value)
  }

  function RequireAllowed(env: Env, url: string, domains: seq<string>): Result<string, UrlError> {
    var normal := NormalizeUrl(env, url);
    if normal.Err? then Err(normal.error)
    else
      var host := ReadHost(env, normal.value);
      if host.Err? then Err(host.error)
      else
        var allowed := HostIsAllowed(env, host.value, domains);
        if allowed.Err? then Err(allowed.error)
        else if !allowed.value then Err(BadHost)
        else Ok(normal.value)
  }

  /** Domain `i` is a boundary of the host, and the search gets that far. */
  predicate ReachesBoundary(env: Env, host: string, domains: seq<string>, i: nat)
    requires i < |domains|
  {
    && (forall j :: 0 <= j <= i ==> CanonicalHost(env, domains[j]).Some?)
    && IsWithin(host, CanonicalHost(env, domains[i]).value)
  }

  /** Some domain is a boundary of the host, and no bad entry comes before it. */
  predicate HasBoundary(env: Env, host: string, domains: seq<string>) {
    exists i :: 0 <= i < |domains| && ReachesBoundary(env, host, domains, i)
  }

  /** The search succeeds exactly when a boundary comes before any bad entry. */
  lemma {:induction false} AnyBoundaryIff(env: Env, host: string, domains: seq<string>)
    ensures AnyBoundary(env, host, domains) == Ok(true) <==> HasBoundary(env, host, domains)
  {
    if domains != [] {
      AnyBoundaryIff(env, host, domains[1..]);
      assert forall i :: 0 < i < |domains| ==> domains[i] == domains[1..][i - 1];
      var boundary := CanonicalHost(env, domains[0]);
      if boundary.Some? && IsWithin(host, boundary.value) {
        assert ReachesBoundary(env, host, domains, 0);
      } else if AnyBoundary(env, host, domains) == Ok(true) {
        var i :| 0 <= i < |domains[1..]| && ReachesBoundary(env, host, domains[1..], i);
        LaterBoundary(env, host, domains, i);
      } else if i :| 0 <= i < |domains| && ReachesBoundary(env, host, domains, i) {
        EarlierBoundary(env, host, domains, i);
      }
    }
  }

  lemma LaterBoundary(env: Env, host: string, domains: seq<string>, i: nat)
    requires domains != [] && CanonicalHost(env, domains[0]).Some?
    requires i < |domains| - 1 && ReachesBoundary(env, host, domains[1..], i)
    ensures ReachesBoundary(env, host, domains, i + 1)
  {
    assert forall j :: 0 < j <= i + 1 ==> domains[j] == domains[1..][j - 1];
  }

  lemma EarlierBoundary(env: Env, host: string, domains: seq<string>, i: nat)
    requires 0 < i < |domains| && ReachesBoundary(env, host, domains, i)
    ensures ReachesBoundary(env, host, domains[1..], i - 1) && CanonicalHost(env, domains[0]).Some?
  {
    assert forall j :: 0 <= j < |domains| - 1 ==> domains[1..][j] == domains[j + 1];
  }

  /** A URL passes exactly when it normalises to a text whose host can be read
      back and lies at or below a domain, with no bad entry before that domain. */
  lemma AllowedIff(env: Env, url: string, domains: seq<string>)
    ensures RequireAllowed(env, url, domains).Ok? <==>
      && NormalizeUrl(env, url).Ok? && ComparedHost(env, NormalizeUrl(env, url).value).Some?
      && HasBoundary(env, ComparedHost(env, NormalizeUrl(env, url).value).value, domains)
    ensures RequireAllowed(env, url, domains).Ok? ==>
      RequireAllowed(env, url, domains).value == NormalizeUrl(env, url).value
  {
    if NormalizeUrl(env, url).Ok? {
      var host := ComparedHost(env, NormalizeUrl(env, url).value);
      if host.Some? { AnyBoundaryIff(env, host.value, domains); }
    }
  }

  lemma StableHostIsRead(env: Env, p: Pieces, url: string)
    requires PlainOnAscii(env) && IsCanonical(p.host) && IsPort(p.port) && IsStableHost(env, p.host)
    requires SplitUrl(url) == Ok(Parts(p.scheme, Netloc(p.host, p.port), p.path, p.query))
    ensures ReadHost(env, url) == Ok(p.host) && ComparedHost(env, url) == Some(p.host)
  {
    NetlocReadsBack(p.host, p.port);
    AuthorityReadsBackIff(env, p.host, p.port);
    CanonicalIsFixedIff(env, p.host);
  }

  /** An accepted URL with a stable host passes exactly when that host lies at or
      below a domain, with no bad entry before that domain. */
  lemma AllowedIffWithin(env: Env, url: string, domains: seq<string>, out: string, p: Pieces)
    requires Lawful(env) && NormalizeUrl(env, url) == Ok(out) && p == Accepted(env, url) && IsStableHost(env, p.host)
    ensures RequireAllowed(env, url, domains).Ok? <==> HasBoundary(env, p.host, domains)
  {
    NormalizedReadsBack(env, url, out, p);
    StableHostIsRead(env, p, out);
    AllowedIff(env, url, domains);
  }

  // ------------------------------------------------------------------ guard

  /** One DNS answer: an address text, or an entry that carries none. */
  datatype Answer = Address(text: string) | Malformed

  /** How addresses are judged and printed; library behaviour. */
  datatype Addresses = Addresses(isPublic: string -> bool, show: string -> string)

  datatype GuardError = Refused(error: UrlError) | NonPublic | NoAnswers

  /** The part before a zone index. */
  function Unzoned(text: string): string {
    Before(text, At('%'))
  }

  lemma UnzonedTells(address: string, zone: string)
    requires '%' !in address
    ensures Unzoned(address) == address && Unzoned(address + ("%" + zone)) == address
  {
    CutFirst(address, "%" + zone, At('%'));
    Uncut(address, At('%'));
  }

  function Collect(addresses: Addresses, answers: seq<Answer>): Option<set<string>> {
    if answers == [] then Some({})
    else
      var n := |answers| - 1;
      var earlier := Collect(addresses, answers[..n]);
      if earlier.None? || answers[n].Malformed? then earlier
      else if !addresses.isPublic(Unzoned(answers[n].text)) then None
      else Some(earlier.value + {addresses.show(Unzoned(answers[n].text))})
  }

  predicate IsPublicOrMalformed(addresses: Addresses, answer: Answer) {
    answer.Address? ==> addresses.isPublic(Unzoned(answer.text))
  }

  /** Gathering succeeds exactly when every well-formed answer is public, and
      gathers exactly those answers. */
  lemma {:induction false} CollectIff(addresses: Addresses, answers: seq<Answer>)
    ensures Collect(addresses, answers).Some? <==>
      forall i :: 0 <= i < |answers| ==> IsPublicOrMalformed(addresses, answers[i])
    ensures Collect(addresses, answers).Some? ==> forall ip :: ip in Collect(addresses, answers).value <==>
      exists i :: 0 <= i < |answers| && answers[i].Address? && addresses.show(Unzoned(answers[i].text)) == ip
  {
    if answers != [] {
      var n := |answers| - 1;
      CollectIff(addresses, answers[..n]);
      assert forall i :: 0 <= i < n ==> answers[..n][i] == answers[i];
    }
  }

  /** The answers looked at. */
  function Considered(answers: seq<Answer>, maximum: nat): (seen: seq<Answer>)
    ensures seen <= answers && |seen| == if |answers| < maximum then |answers| else maximum
  {
    if |answers| <= maximum then answers else answers[..maximum]
  }

  /** `SSRFGuard.validate`: the addresses to connect to, in order. */
  function Validate(
    env: Env, addresses: Addresses, domains: seq<string>, url: string, answers: seq<Answer>, maximum: nat)
    : Result<(string, seq<string>), GuardError>
  {
    var allowed := RequireAllowed(env, url, domains);
    if allowed.Err? then Err(Refused(allowed.error))
    else
      var ips := Collect(addresses, Considered(answers, maximum));
      if ips.None? then Err(NonPublic)
      else if ips.value == {} then Err(NoAnswers)
      else Ok((allowed.value, Sorted(ips.value)))
  }

  /** A target is released exactly when its URL is allowed, no answer looked at is
      non-public, and at least one carries an address; the connection then goes
      to those addresses only. */
  lemma ValidateIff(
    env: Env, addresses: Addresses, domains: seq<string>, url: string, answers: seq<Answer>, maximum: nat)
    ensures var seen, target := Considered(answers, maximum), Validate(env, addresses, domains, url, answers, maximum);
      && (target.Ok? <==>
        && RequireAllowed(env, url, domains).Ok?
        && (forall i :: 0 <= i < |seen| ==> IsPublicOrMalformed(addresses, seen[i]))
        && (exists i :: 0 <= i < |seen| && seen[i].Address?))
      && (target.Ok? ==>
        && target.value.0 == RequireAllowed(env, url, domains).value
        && forall ip :: ip in target.value.1 <==>
          exists i :: 0 <= i < |seen| && seen[i].Address? && addresses.show(Unzoned(seen[i].text)) == ip)
  {
    var seen := Considered(answers, maximum);
    CollectIff(addresses, seen);
    var ips := Collect(addresses, seen);
    if i :| 0 <= i < |seen| && seen[i].Address? && ips.Some? {
      assert addresses.show(Unzoned(seen[i].text)) in ips.value;
    }
  }
}
