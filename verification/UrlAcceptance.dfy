/** Which URLs `normalize_url` accepts and what it makes of their parts
    (audit_engine/urls.py:52-63, 82-144), condition by condition. */
module UrlAcceptance {
  import opened Outcomes
  import opened Splitting
  import opened Decimals
  import opened Urls
  import UrlPath
  import UrlQuery
  import UrlEscapes

  // ------------------------------------------------------------- the parts

  /** What follows the path: a query, a fragment, both or neither. */
  ghost predicate IsTail(tail: string, query: string) {
    || (tail == "" && query == "")
    || (tail != "" && tail[0] == '#' && query == "")
    || (tail != "" && tail[0] == '?' && '#' !in query
        && (tail[1..] == query || exists fragment :: tail[1..] == query + ("#" + fragment)))
  }

  /** The URL is its parts: the scheme before the first colon, the authority up to a
      slash, question mark or hash, the path up to a question mark or hash, and the
      query up to a hash. */
  ghost predicate ConsistsOf(url: string, parts: Parts, scheme: string, tail: string) {
    && url == scheme + (":" + ("//" + (parts.netloc + (parts.path + tail))))
    && ':' !in scheme && Lower(scheme) == parts.scheme && parts.scheme in {"http", "https"}
    && (forall c :: c in parts.netloc ==> c !in "/?#")
    && (parts.path != "" ==> parts.path[0] == '/') && (forall c :: c in parts.path ==> c !in "?#")
    && IsTail(tail, parts.query)
  }

  lemma {:induction false} CutInTwo(s: string, stop: Stop)
    ensures s == Before(s, stop) + s[FirstOf(s, stop)..]
    ensures FirstOf(s, stop) < |s| ==> s[FirstOf(s, stop)..] == [s[FirstOf(s, stop)]] + After(s, stop)
    ensures FirstOf(s, stop) == |s| ==> s[FirstOf(s, stop)..] == "" && After(s, stop) == ""
  {
  }

  lemma AtMeans(s: string, c: char)
    ensures Without(s, At(c)) <==> c !in s
  {
    if !Without(s, At(c)) {
      var i :| 0 <= i < |s| && Stops(At(c), s[i]);
      assert s[i] == c;
    }
  }

  lemma {:induction false} BeforeIsWithout(s: string, c: char)
    ensures c !in Before(s, At(c))
    ensures FirstOf(s, At(c)) < |s| <==> c in s
  {
    AtMeans(Before(s, At(c)), c);
    AtMeans(s, c);
    if FirstOf(s, At(c)) == |s| { assert s[..|s|] == s; }
  }

  lemma LocatedIsCut(located: string)
    requires located == "" || located[0] in "/?"
    ensures var path, query := Before(located, At('?')), After(located, At('?'));
      && '?' !in path && (path != "" ==> path[0] == '/')
      && (if '?' in located then located == path + (['?'] + query) else path == located && query == "")
  {
    CutInTwo(located, At('?'));
    BeforeIsWithout(located, '?');
    var path := Before(located, At('?'));
    if path != "" { assert path[0] == located[0]; }
    if '?' !in located { assert path == located; }
  }

  lemma FragmentIsCut(tail: string)
    requires tail == "" || tail[0] in "/?#"
    ensures var located := Before(tail, At('#'));
      && '#' !in located && (located == "" || located[0] in "/?")
      && (tail == located || exists fragment :: tail == located + ("#" + fragment))
  {
    CutInTwo(tail, At('#'));
    BeforeIsWithout(tail, '#');
    var located := Before(tail, At('#'));
    if located != "" { assert located[0] == tail[0]; }
    if located != tail { assert tail == located + ("#" + After(tail, At('#'))); }
  }

  /** Path, query and fragment. */
  lemma TailIsCut(tail: string) returns (rest: string)
    requires tail == "" || tail[0] in "/?#"
    ensures var located := Before(tail, At('#'));
      var path, query := Before(located, At('?')), After(located, At('?'));
      && tail == path + rest && IsTail(rest, query) && (path != "" ==> path[0] == '/')
      && (forall c :: c in path ==> c !in "?#")
  {
    var located := Before(tail, At('#'));
    var path, query := Before(located, At('?')), After(located, At('?'));
    FragmentIsCut(tail);
    LocatedIsCut(located);
    if '?' in located {
      assert forall c :: c in path ==> c in located;
      assert forall c :: c in query ==> c in located;
      rest := RestAfterPath(tail, located, path, query);
    } else {
      rest := tail[|path|..];
      if tail != located {
        var fragment :| tail == located + ("#" + fragment);
        assert rest == "#" + fragment;
      }
    }
  }

  lemma RestAfterPath(tail: string, located: string, path: string, query: string) returns (rest: string)
    requires located == path + (['?'] + query) && '#' !in query
    requires tail == located || exists fragment :: tail == located + ("#" + fragment)
    ensures tail == path + rest && IsTail(rest, query)
  {
    if tail == located {
      rest := ['?'] + query;
    } else {
      var fragment :| tail == located + ("#" + fragment);
      Regroup(path, ['?'] + query, "#" + fragment);
      rest := ['?'] + query + ("#" + fragment);
    }
    RestHasAQuery(tail, located, path, query, rest);
  }

  lemma SameRest(a: string, b: string, c: string)
    requires a + b == a + c
    ensures b == c
  {
    assert (a + b)[|a|..] == b && (a + c)[|a|..] == c;
  }

  lemma RestHasAQuery(tail: string, located: string, path: string, query: string, rest: string)
    requires located == path + (['?'] + query) && '#' !in query && tail == path + rest
    requires tail == located || exists fragment :: tail == located + ("#" + fragment)
    ensures IsTail(rest, query)
  {
    if tail == located {
      SameRest(path, rest, ['?'] + query);
    } else {
      var fragment :| tail == located + ("#" + fragment);
      Regroup(path, ['?'] + query, "#" + fragment);
      Regroup(['?'], query, "#" + fragment);
      SameRest(path, rest, ['?'] + (query + ("#" + fragment)));
      assert rest[1..] == query + ("#" + fragment);
    }
  }

  lemma {:induction false} AuthorityEndsThere(rest: string)
    ensures forall c :: c in Before(rest, AuthorityEnd) ==> c !in "/?#"
    ensures var tail := rest[FirstOf(rest, AuthorityEnd)..]; tail == "" || tail[0] in "/?#"
  {
    var netloc := Before(rest, AuthorityEnd);
    assert forall i :: 0 <= i < |netloc| ==> !Stops(AuthorityEnd, netloc[i]);
  }

  lemma HierarchyRebuilds(scheme: string, rest: string) returns (tail: string)
    ensures var parts := SplitHierarchy(scheme, rest);
      && rest == parts.netloc + (parts.path + tail) && IsTail(tail, parts.query)
      && (forall c :: c in parts.netloc ==> c !in "/?#")
      && (parts.path != "" ==> parts.path[0] == '/') && (forall c :: c in parts.path ==> c !in "?#")
  {
    CutInTwo(rest, AuthorityEnd);
    AuthorityEndsThere(rest);
    tail := TailIsCut(rest[FirstOf(rest, AuthorityEnd)..]);
  }

  lemma TwoSlashes(s: string)
    requires |s| >= 2 && s[0] == '/' && s[1] == '/'
    ensures s == "//" + s[2..]
  {
  }

  lemma CutAtColon(url: string)
    requires !Without(url, At(':'))
    ensures ':' !in Before(url, At(':')) && url == Before(url, At(':')) + (":" + After(url, At(':')))
  {
    AtMeans(url, ':');
    BeforeIsWithout(url, ':');
    CutInTwo(url, At(':'));
  }

  lemma SchemeIsCut(url: string)
    requires SplitUrl(url).Ok?
    ensures var scheme, slashed := Before(url, At(':')), After(url, At(':'));
      && ':' !in scheme && Lower(scheme) in {"http", "https"} && |slashed| >= 2
      && url == scheme + (":" + ("//" + slashed[2..]))
      && SplitUrl(url) == Ok(SplitHierarchy(Lower(scheme), slashed[2..]))
  {
    CutAtColon(url);
    TwoSlashes(After(url, At(':')));
  }

  /** The parts read off a URL make it up. */
  lemma SplitRebuilds(url: string, parts: Parts) returns (scheme: string, tail: string)
    requires SplitUrl(url) == Ok(parts)
    ensures ConsistsOf(url, parts, scheme, tail)
  {
    SchemeIsCut(url);
    scheme := Before(url, At(':'));
    tail := HierarchyRebuilds(Lower(scheme), After(url, At(':'))[2..]);
  }

  /** A URL has parts exactly if it is HTTP or HTTPS, in whatever case, and slashes
      follow the colon. */
  lemma SplitIff(url: string)
    ensures SplitUrl(url).Ok? <==>
      exists scheme, rest: string ::
        url == scheme + (":" + ("//" + rest)) && ':' !in scheme && Lower(scheme) in {"http", "https"}
  {
    if SplitUrl(url).Ok? {
      SchemeIsCut(url);
    }
    if scheme, rest: string :|
      url == scheme + (":" + ("//" + rest)) && ':' !in scheme && Lower(scheme) in {"http", "https"}
    {
      AtMeans(scheme, ':');
      SplitAtColon(scheme, "//" + rest);
    }
  }

  // --------------------------------------------------------------- the host

  /** The host can be made canonical: something is left of it, at most 253 characters
      long, and it can be encoded into labels of 1 to 63 characters. */
  ghost predicate HostCanBeEncoded(env: Env, host: string, encoded: string) {
    && 0 < |Candidate(env, host)| <= 253 && env.idna(Candidate(env, host)) == Some(encoded)
    && forall i :: 0 <= i < |SplitOn(encoded, '.')| ==> 1 <= |SplitOn(encoded, '.')[i]| < 64
  }

  lemma CanonicalHostIff(env: Env, host: string, encoded: string)
    ensures CanonicalHost(env, host) == Some(encoded) <==> HostCanBeEncoded(env, host, encoded)
  {
  }

  /** What is left of a host as written: spaces go on both sides, then dots at the end,
      and the rest is folded. */
  lemma CandidateTells(env: Env, host: string) returns (left: string, right: string, dots: string)
    ensures exists kept :: host == left + ((kept + dots) + right) && Candidate(env, host) == env.foldHost(kept)
    ensures forall i :: 0 <= i < |dots| ==> dots[i] == '.'
    ensures (forall i :: 0 <= i < |left| ==> IsSpace(left[i])) && forall i :: 0 <= i < |right| ==> IsSpace(right[i])
  {
    left := StrippedLeft(host);
    right := StrippedRight(StripLeft(host));
    dots := StrippedDots(Strip(host));
    var kept := StripDots(Strip(host));
    assert host == left + ((kept + dots) + right);
  }

  lemma {:induction false} StrippedLeft(s: string) returns (a: string)
    ensures s == a + StripLeft(s) && forall i :: 0 <= i < |a| ==> IsSpace(a[i])
  {
    a := "";
    if s != "" && IsSpace(s[0]) {
      var rest := StrippedLeft(s[1..]);
      a := [s[0]] + rest;
    }
  }

  lemma {:induction false} StrippedRight(s: string) returns (b: string)
    ensures s == StripRight(s) + b && forall i :: 0 <= i < |b| ==> IsSpace(b[i])
  {
    b := "";
    if s != "" && IsSpace(s[|s| - 1]) {
      var rest := StrippedRight(s[..|s| - 1]);
      b := rest + [s[|s| - 1]];
    }
  }

  lemma {:induction false} StrippedDots(s: string) returns (b: string)
    ensures s == StripDots(s) + b && forall i :: 0 <= i < |b| ==> b[i] == '.'
  {
    b := "";
    if s != "" && s[|s| - 1] == '.' {
      var rest := StrippedDots(s[..|s| - 1]);
      b := rest + ['.'];
    }
  }

  // ---------------------------------------------------------- the authority

  /** The port text is empty, or a number from 1 to 65535. */
  ghost predicate IsPortText(text: string) {
    || text == ""
    || ((forall i :: 0 <= i < |text| ==> '0' <= text[i] <= '9') && AllDigits(text) && 1 <= Value(text) < 65536)
  }

  /** An authority is accepted: it passes the parser's checks, has no user in it, and
      its host and port are in order. */
  ghost predicate IsAcceptable(env: Env, netloc: string, host: string, port: string) {
    && env.authorityOk(netloc) && '@' !in netloc
    && (if '[' in netloc then ']' in netloc && env.bracketOk(host) else ']' !in netloc)
    && host != "" && IsPortText(port) && exists encoded :: HostCanBeEncoded(env, host, encoded)
  }

  lemma EncodableIff(env: Env, host: string)
    ensures CanonicalHost(env, host).Some? <==> exists encoded :: HostCanBeEncoded(env, host, encoded)
    ensures CanonicalHost(env, host).Some? ==> HostCanBeEncoded(env, host, CanonicalHost(env, host).value)
  {
    var canonical := CanonicalHost(env, host);
    if canonical.Some? { CanonicalHostIff(env, host, canonical.value); }
    if encoded :| HostCanBeEncoded(env, host, encoded) { CanonicalHostIff(env, host, encoded); }
  }

  lemma {:induction false} PortIff(text: string)
    ensures PortOf(text).Ok? <==> IsPortText(text)
    ensures PortOf(text).Ok? ==> PortOf(text).value == if text == "" then None else Some(Value(text))
  {
  }

  lemma AuthorityIff(env: Env, netloc: string)
    ensures var (host, port) := HostAndPort(netloc);
      && (Authority(env, netloc).Ok? <==> IsAcceptable(env, netloc, host, port))
      && (Authority(env, netloc).Ok? ==>
            && HostCanBeEncoded(env, host, Authority(env, netloc).value.0)
            && Authority(env, netloc).value.1 == if port == "" then None else Some(Value(port)))
  {
    EncodableIff(env, HostAndPort(netloc).0);
    PortIff(HostAndPort(netloc).1);
  }

  /** Without brackets the host ends at the first colon; in brackets it is what they
      hold, and the port follows the next colon. */
  lemma HostAndPortAre(host: string, port: string)
    ensures '[' !in host && ':' !in host && '[' !in port ==>
      HostAndPort(host + (":" + port)) == (host, port) && HostAndPort(host) == (host, "")
    ensures ']' !in host ==>
      HostAndPort("[" + (host + ("]" + (":" + port)))) == (host, port) && HostAndPort("[" + (host + "]")) == (host, "")
  {
    if '[' !in host && ':' !in host && '[' !in port { PlainHostAndPort(host, port); }
    if ']' !in host {
      BracketedHostAndPort(host, ":" + port);
      BracketedHostAndPort(host, "");
      CutFirst("", ":" + port, At(':'));
      assert "" + (":" + port) == ":" + port && "]" + "" == "]";
    }
  }

  lemma PlainHostAndPort(host: string, port: string)
    requires '[' !in host && ':' !in host && '[' !in port
    ensures HostAndPort(host + (":" + port)) == (host, port) && HostAndPort(host) == (host, "")
  {
    AtMeans(host, ':');
    CutFirst(host, ":" + port, At(':'));
    assert (":" + port)[1..] == port;
    assert '[' !in host + (":" + port);
    Uncut(host, At(':'));
  }

  lemma BracketedHostAndPort(host: string, rest: string)
    requires ']' !in host
    ensures HostAndPort("[" + (host + ("]" + rest))) == (host, After(rest, At(':')))
  {
    AtMeans(host, ']');
    var inner := host + ("]" + rest);
    CutFirst("", "[" + inner, At('['));
    assert "" + ("[" + inner) == "[" + inner && ("[" + inner)[1..] == inner && ("[" + inner)[0] == '[';
    CutFirst(host, "]" + rest, At(']'));
    assert ("]" + rest)[1..] == rest;
  }

  // ---------------------------------------------------------- the whole URL

  /** The text of the parts accepted, put together: a default port is not shown, a host
      with a colon stands in brackets, and an empty query has no question mark. */
  ghost predicate IsTextOf(out: string, scheme: string, host: string, port: Option<nat>, path: string, query: string) {
    var shown := if port == None || (scheme == "http" && port == Some(80)) || (scheme == "https" && port == Some(443))
                 then "" else ":" + Decimal(port.value);
    var authority := (if ':' in host then "[" + (host + "]") else host) + shown;
    out == scheme + ("://" + (authority + (path + if query == "" then "" else "?" + query)))
  }

  lemma ComposeIsTextOf(scheme: string, host: string, port: Option<nat>, path: string, query: string)
    ensures IsTextOf(Compose(Pieces(scheme, host, ShownPort(scheme, port), path, query)),
                     scheme, host, port, path, query)
  {
    var shown := PortPart(ShownPort(scheme, port));
    if ':' in host {
      assert "[" + (host + ("]" + shown)) == ("[" + (host + "]")) + shown;
    }
    assert ":" + ("//" + (Netloc(host, ShownPort(scheme, port)) + (path + QueryPart(query))))
        == "://" + (Netloc(host, ShownPort(scheme, port)) + (path + QueryPart(query)));
  }

  /** A URL text passes the first checks: not empty, no control characters, at most
      8192 characters. */
  ghost predicate IsReadable(text: string) {
    0 < |text| < 8193 && forall i :: 0 <= i < |text| ==> ' ' <= text[i] && text[i] as int != 127
  }

  /** Parts of which a URL can be made: the authority and the path are in order. */
  ghost predicate AreInOrder(env: Env, parts: Parts) {
    && UrlPath.IsUrlPath(parts.path) && UrlPath.PathOf(parts.path).Ok?
    && IsAcceptable(env, parts.netloc, HostAndPort(parts.netloc).0, HostAndPort(parts.netloc).1)
  }

  lemma PiecesIff(env: Env, url: string)
    ensures PiecesOf(env, url).Ok? <==> SplitUrl(url).Ok? && AreInOrder(env, SplitUrl(url).value)
  {
    if SplitUrl(url).Ok? { AuthorityIff(env, SplitUrl(url).value.netloc); }
  }

  /** `normalize_url` accepts a URL exactly if, trimmed, it is readable, has parts, these
      are in order, and the result is no longer than allowed; the result is the text of
      the parts made canonical. */
  lemma NormalizeIff(env: Env, raw: string, out: string)
    ensures NormalizeUrl(env, raw) == Ok(out) <==>
      && IsReadable(Strip(raw)) && SplitUrl(Strip(raw)).Ok? && AreInOrder(env, SplitUrl(Strip(raw)).value)
      && |out| < 8193 && IsMadeOf(env, out, SplitUrl(Strip(raw)).value)
  {
    var url := Strip(raw);
    assert IsReadable(url) <==> url != "" && UrlPath.IsPrintable(url) && |url| <= MAX_LENGTH;
    PiecesIff(env, url);
    if PiecesOf(env, url).Ok? { MadeOfIff(env, out, SplitUrl(url).value, url); }
  }

  /** The text puts together: the scheme, the encoded host, the port as a number, the
      path cleaned, and the query cleaned. */
  ghost predicate IsMadeOf(env: Env, out: string, parts: Parts)
    requires AreInOrder(env, parts)
  {
    var (host, port) := HostAndPort(parts.netloc);
    exists encoded :: HostCanBeEncoded(env, host, encoded)
      && IsTextOf(out, parts.scheme, encoded, if port == "" then None else Some(Value(port)),
                  UrlPath.PathOf(parts.path).value, UrlQuery.Clean(env.codec, parts.query))
  }

  lemma MadeOfIff(env: Env, out: string, parts: Parts, url: string)
    requires SplitUrl(url) == Ok(parts) && PiecesOf(env, url).Ok? && AreInOrder(env, parts)
    ensures IsMadeOf(env, out, parts) <==> out == Compose(PiecesOf(env, url).value)
  {
    AuthorityIff(env, parts.netloc);
    var (host, port) := Authority(env, parts.netloc).value;
    ComposeIsTextOf(parts.scheme, host, port, UrlPath.PathOf(parts.path).value, UrlQuery.Clean(env.codec, parts.query));
  }
}
