/** What `normalize_url` guarantees (audit_engine/urls.py:82-144): its result
    reads back as the pieces it was put together from, different pieces give
    different URLs, and a second pass leaves the result alone exactly when the
    host can stand as it is and the path is not bare slashes. */
module UrlNormalForm {
  import opened Outcomes
  import opened Splitting
  import opened Decimals
  import opened Urls
  import UrlPath
  import UrlQuery

  // -------------------------------------------------------------- authority

  predicate IsPort(port: Option<nat>) {
    port.Some? ==> 1 <= port.value <= 65535
  }

  function PortText(port: Option<nat>): string {
    if port.Some? then Decimal(port.value) else ""
  }

  lemma PortReadsBack(port: Option<nat>)
    requires IsPort(port)
    ensures After(PortPart(port), At(':')) == PortText(port) && PortOf(PortText(port)) == Ok(port)
    ensures forall i :: 0 <= i < |PortPart(port)| ==> IsDigit(PortPart(port)[i]) || (i == 0 && PortPart(port)[i] == ':')
    ensures PortPart(port) != "" ==> PortPart(port)[0] == ':'
  {
    if port.Some? {
      ValueOfDecimal(port.value);
      assert PortPart(port)[1..] == Decimal(port.value);
    }
  }

  lemma PlainNetlocReadsBack(host: string, port: Option<nat>)
    requires IsPort(port) && ':' !in host
    ensures Before(Netloc(host, port), At(':')) == host && After(Netloc(host, port), At(':')) == PortText(port)
  {
    PortReadsBack(port);
    CutFirst(host, PortPart(port), At(':'));
    assert After(PortPart(port), At(':')) == if PortPart(port) == "" then "" else PortPart(port)[1..];
  }

  lemma BracketedNetlocReadsBack(host: string, port: Option<nat>)
    requires IsPort(port) && ':' in host && ']' !in host
    ensures HostAndPort(Netloc(host, port)) == (host, PortText(port))
  {
    PortReadsBack(port);
    var closing := "]" + PortPart(port);
    CutFirst(host, closing, At(']'));
    assert closing[1..] == PortPart(port);
    OpeningBracket(host + closing);
  }

  lemma OpeningBracket(inner: string)
    ensures '[' in "[" + inner && After("[" + inner, At('[')) == inner
  {
    assert ("[" + inner)[0] == '[' && ("[" + inner)[1..] == inner;
  }

  lemma PortPartIsHostText(port: Option<nat>)
    requires IsPort(port)
    ensures IsHostText(PortPart(port)) && '[' !in PortPart(port) && ']' !in PortPart(port)
  {
    PortReadsBack(port);
  }

  lemma PlainNetlocText(host: string, tail: string)
    requires IsHostText(host) && IsHostText(tail) && '[' !in tail && ']' !in tail
    ensures IsHostText(host + tail)
    ensures ('[' in host + tail <==> '[' in host) && (']' in host + tail <==> ']' in host)
  {
    InConcat(host, tail, '[');
    InConcat(host, tail, ']');
  }

  lemma InConcat(a: string, b: string, c: char)
    ensures c in a + b <==> c in a || c in b
  {
  }

  lemma BracketedNetlocText(host: string, tail: string)
    requires IsHostText(host) && IsHostText(tail)
    ensures var netloc := "[" + (host + ("]" + tail)); '[' in netloc && ']' in netloc && IsHostText(netloc)
  {
    var netloc := "[" + (host + ("]" + tail));
    assert netloc[0] == '[' && netloc[|host| + 1] == ']';
  }

  /** Which brackets an authority shows, and that it holds no other delimiter. */
  lemma NetlocText(host: string, port: Option<nat>)
    requires IsHostText(host) && IsPort(port)
    ensures '[' in Netloc(host, port) <==> '[' in host || ':' in host
    ensures ']' in Netloc(host, port) <==> ']' in host || ':' in host
    ensures IsHostText(Netloc(host, port))
  {
    PortPartIsHostText(port);
    if ':' in host {
      BracketedNetlocText(host, PortPart(port));
    } else {
      PlainNetlocText(host, PortPart(port));
    }
  }

  /** The last closing bracket cuts a text in one way only. */
  lemma {:induction false} LastBracketCuts(host: string, tail: string, other: string, otherTail: string)
    requires ']' !in tail && ']' !in otherTail
    requires host + ("]" + tail) == other + ("]" + otherTail)
    ensures host == other && tail == otherTail
  {
    if |host| <= |other| {
      LastBracketIsNoLater(host, tail, other, otherTail);
    } else {
      LastBracketIsNoLater(other, otherTail, host, tail);
    }
    var whole := host + ("]" + tail);
    assert whole[..|host|] == host && whole[|host| + 1..] == tail;
    assert whole[..|other|] == other && whole[|other| + 1..] == otherTail;
  }

  lemma {:induction false} LastBracketIsNoLater(host: string, tail: string, other: string, otherTail: string)
    requires ']' !in tail && |host| <= |other|
    requires host + ("]" + tail) == other + ("]" + otherTail)
    ensures |host| == |other|
  {
    var whole := host + ("]" + tail);
    var behind := whole[|host| + 1..];
    assert behind == tail;
    assert forall k :: |host| < k < |whole| ==> whole[k] == behind[k - |host| - 1];
    assert whole[|other|] == ']';
  }

  lemma BracketedIsInjective(host: string, port: Option<nat>, other: string, otherPort: Option<nat>)
    requires ':' in host && ':' in other && IsPort(port) && IsPort(otherPort)
    requires Netloc(host, port) == Netloc(other, otherPort)
    ensures host == other && PortPart(port) == PortPart(otherPort)
  {
    PortPartIsHostText(port);
    PortPartIsHostText(otherPort);
    var inner, otherInner := host + ("]" + PortPart(port)), other + ("]" + PortPart(otherPort));
    assert ("[" + inner)[1..] == inner && ("[" + otherInner)[1..] == otherInner;
    LastBracketCuts(host, PortPart(port), other, PortPart(otherPort));
  }

  /** After the first colon an authority shows a bracket only if it was put in
      brackets. */
  lemma BracketAfterColon(host: string, port: Option<nat>)
    requires ':' in host
    ensures ']' in After(Netloc(host, port), At(':'))
  {
    var i :| 0 <= i < |host| && host[i] == ':';
    assert Netloc(host, port)[i + 1] == ':' && Netloc(host, port)[|host| + 1] == ']';
    LaterIsAfter(Netloc(host, port), ':', i + 1, |host| + 1);
  }

  /** What comes after some occurrence of a character comes after the first one. */
  lemma LaterIsAfter(s: string, c: char, i: nat, j: nat)
    requires i < j < |s| && s[i] == c
    ensures s[j] in After(s, At(c))
  {
    var n := FirstOf(s, At(c));
    FirstOfIsFirst(s, At(c), i);
    assert s[n + 1..][j - n - 1] == s[j];
  }

  /** Two authorities with the same text have the same host and port. */
  lemma NetlocIsInjective(host: string, port: Option<nat>, other: string, otherPort: Option<nat>)
    requires IsPort(port) && IsPort(otherPort) && Netloc(host, port) == Netloc(other, otherPort)
    ensures host == other && port == otherPort
  {
    PortReadsBack(port);
    PortReadsBack(otherPort);
    if ':' in host && ':' in other {
      BracketedIsInjective(host, port, other, otherPort);
    } else if ':' in host {
      BracketAfterColon(host, port);
      PlainNetlocReadsBack(other, otherPort);
    } else if ':' in other {
      BracketAfterColon(other, otherPort);
      PlainNetlocReadsBack(host, port);
    } else {
      PlainNetlocReadsBack(host, port);
      PlainNetlocReadsBack(other, otherPort);
    }
  }

  // ---------------------------------------------------- hosts, a second time

  /** The host is read back as written: no closing bracket, and an opening one
      only inside brackets. */
  predicate IsReadable(host: string) {
    ']' !in host && ('[' in host ==> ':' in host)
  }

  /** The host stands as it is: no space at its ends, short enough, readable, and
      accepted in brackets whenever it needs them. */
  predicate IsStableHost(env: Env, host: string) {
    IsTrimmed(host) && |host| <= 253 && IsReadable(host) && (':' in host ==> env.bracketOk(host))
  }

  /** A host as `canonical_host` returns it. */
  predicate IsCanonical(host: string) {
    host != "" && IsEncoded(host) && LabelsOk(host)
  }

  lemma AuthorityIsCanonical(env: Env, netloc: string)
    requires Lawful(env) && UrlPath.IsPrintable(netloc) && Without(netloc, AuthorityEnd) && Authority(env, netloc).Ok?
    ensures IsCanonical(Authority(env, netloc).value.0) && IsPort(Authority(env, netloc).value.1)
  {
    assert forall i :: 0 <= i < |netloc| ==> netloc[i] in netloc;
    CanonicalHostText(env, netloc, Authority(env, netloc).value.0);
  }

  lemma NetlocIsAscii(host: string, port: Option<nat>)
    requires IsHostText(host) && UrlQuery.AllAscii(host) && IsPort(port)
    ensures UrlQuery.AllAscii(Netloc(host, port))
  {
    PortReadsBack(port);
    assert forall i :: 0 <= i < |PortPart(port)| ==> UrlQuery.IsAscii(PortPart(port)[i]);
  }

  /** A canonical host is its own canonical form exactly when trimmed and short. */
  lemma CanonicalIsFixedIff(env: Env, host: string)
    requires PlainOnAscii(env) && IsCanonical(host)
    ensures CanonicalHost(env, host) == Some(host) <==> IsTrimmed(host) && |host| <= 253
  {
    StripIsAPart(host);
    StripDotsIsPrefix(Strip(host));
    var inner := StripDots(Strip(host));
    assert UrlQuery.AllAscii(inner) by {
      forall i | 0 <= i < |inner|
        ensures UrlQuery.IsAscii(inner[i])
      {
        assert inner[i] == Strip(host)[i] && Strip(host)[i] in host;
      }
    }
    if host[|host| - 1] == '.' { LastLabel(host); }
    if !IsTrimmed(host) { assert |Lower(inner)| < |host|; }
  }

  lemma NetlocReadsBack(host: string, port: Option<nat>)
    requires IsHostText(host) && IsPort(port) && IsReadable(host)
    ensures HostAndPort(Netloc(host, port)) == (host, PortText(port))
  {
    if ':' in host {
      BracketedNetlocReadsBack(host, port);
    } else {
      NetlocText(host, port);
      PlainNetlocReadsBack(host, port);
    }
  }

  lemma NetlocIsPlain(host: string, port: Option<nat>)
    requires IsHostText(host) && UrlQuery.AllAscii(host) && IsPort(port)
    ensures var netloc := Netloc(host, port);
      && UrlQuery.AllAscii(netloc) && '@' !in netloc
      && ('[' in netloc <==> '[' in host || ':' in host) && (']' in netloc <==> ']' in host || ':' in host)
  {
    NetlocText(host, port);
    NetlocIsAscii(host, port);
  }

  /** A canonical form brings in no closing bracket of its own. */
  lemma CanonicalKeepsOut(env: Env, host: string, canonical: string)
    requires PlainOnAscii(env) && UrlQuery.AllAscii(host) && CanonicalHost(env, host) == Some(canonical)
    requires ']' !in host
    ensures ']' !in canonical
  {
    StripIsAPart(host);
    StripDotsIsPrefix(Strip(host));
    var inner := StripDots(Strip(host));
    forall i | 0 <= i < |inner|
      ensures UrlQuery.IsAscii(inner[i]) && inner[i] != ']'
    {
      assert inner[i] == Strip(host)[i] && Strip(host)[i] in host;
    }
    assert UrlQuery.AllAscii(Lower(inner)) && ']' !in Lower(inner);
  }

  lemma AsciiHost(netloc: string)
    requires UrlQuery.AllAscii(netloc)
    ensures UrlQuery.AllAscii(HostAndPort(netloc).0)
  {
    HostIsAPart(netloc);
    var read := HostAndPort(netloc).0;
    assert forall i :: 0 <= i < |read| ==> read[i] in read;
    assert forall c :: c in netloc ==> UrlQuery.IsAscii(c);
  }

  lemma BracketedHostEnds(netloc: string)
    requires '[' in netloc
    ensures ']' !in HostAndPort(netloc).0
  {
    assert forall i :: 0 <= i < |HostAndPort(netloc).0| ==> !Stops(At(']'), HostAndPort(netloc).0[i]);
  }

  /** A host read out of brackets holds no closing one. */
  lemma BracketedHostHasNone(env: Env, netloc: string)
    requires PlainOnAscii(env) && UrlQuery.AllAscii(netloc) && '[' in netloc && Authority(env, netloc).Ok?
    ensures ']' !in Authority(env, netloc).value.0
  {
    AsciiHost(netloc);
    BracketedHostEnds(netloc);
    CanonicalKeepsOut(env, HostAndPort(netloc).0, Authority(env, netloc).value.0);
  }

  lemma MismatchIsRefused(env: Env, netloc: string)
    requires !('[' in netloc <==> ']' in netloc)
    ensures Authority(env, netloc).Err?
  {
  }

  /** An authority whose host is not readable is refused, or another host is read. */
  lemma UnreadableIsNotReadBack(env: Env, host: string, port: Option<nat>)
    requires PlainOnAscii(env) && IsCanonical(host) && IsPort(port) && !IsReadable(host)
    ensures var again := Authority(env, Netloc(host, port)); again.Ok? ==> again.value.0 != host
  {
    var netloc := Netloc(host, port);
    NetlocIsPlain(host, port);
    if '[' !in netloc || ']' !in netloc {
      MismatchIsRefused(env, netloc);
    } else if Authority(env, netloc).Ok? {
      BracketedHostHasNone(env, netloc);
    }
  }

  /** The authority put together from a host and a port is read as that host and
      port exactly when the host is stable; otherwise it is refused, or another
      host is read. */
  lemma AuthorityReadsBackIff(env: Env, host: string, port: Option<nat>)
    requires PlainOnAscii(env) && IsCanonical(host) && IsPort(port)
    ensures var again := Authority(env, Netloc(host, port));
      && (again == Ok((host, port)) <==> IsStableHost(env, host))
      && (again.Ok? && again.value.0 == host ==> IsStableHost(env, host))
  {
    if IsReadable(host) {
      ReadableReadsBackIff(env, host, port);
    } else {
      UnreadableIsNotReadBack(env, host, port);
    }
  }

  lemma ReadableReadsBackIff(env: Env, host: string, port: Option<nat>)
    requires PlainOnAscii(env) && IsCanonical(host) && IsPort(port) && IsReadable(host)
    ensures var again := Authority(env, Netloc(host, port));
      && (again == Ok((host, port)) <==> IsStableHost(env, host))
      && (again.Ok? && again.value.0 == host ==> IsStableHost(env, host))
  {
    NetlocIsPlain(host, port);
    NetlocReadsBack(host, port);
    PortReadsBack(port);
    AuthorityIs(env, Netloc(host, port), host, PortText(port));
    CanonicalIsFixedIff(env, host);
  }

  /** What is left to check of an ASCII authority without credentials. */
  lemma AuthorityIs(env: Env, netloc: string, host: string, portText: string)
    requires PlainOnAscii(env) && UrlQuery.AllAscii(netloc) && '@' !in netloc && host != ""
    requires HostAndPort(netloc) == (host, portText) && ('[' in netloc <==> ']' in netloc) && PortOf(portText).Ok?
    ensures Authority(env, netloc).Ok? <==> ('[' in netloc ==> env.bracketOk(host)) && CanonicalHost(env, host).Some?
    ensures Authority(env, netloc).Ok? ==>
      Authority(env, netloc).value == (CanonicalHost(env, host).value, PortOf(portText).value)
  {
  }

  // ------------------------------------------------------------ normal pieces

  predicate IsQueryChar(c: char) {
    UrlQuery.IsPlusSafe(c) || c == '=' || c == '&'
  }

  predicate IsQueryText(s: string) {
    forall i :: 0 <= i < |s| ==> IsQueryChar(s[i])
  }

  lemma {:induction false} QuotedIsQueryText(s: string)
    ensures IsQueryText(UrlQuery.PlusQuote(s))
  {
    UrlQuery.PlusQuoteIsSafe(s);
    assert forall i :: 0 <= i < |UrlQuery.PlusQuote(s)| ==> UrlQuery.PlusQuote(s)[i] in UrlQuery.PlusQuote(s);
  }

  lemma {:induction false} EncodeIsQueryText(items: seq<UrlQuery.Item>)
    ensures IsQueryText(UrlQuery.Encode(items))
  {
    if items != [] {
      QuotedIsQueryText(items[0].0);
      QuotedIsQueryText(items[0].1);
      EncodeIsQueryText(items[1..]);
      assert UrlQuery.EncodeItems(items)[1..] == UrlQuery.EncodeItems(items[1..]);
    }
  }

  /** A path as a first pass leaves it. */
  predicate IsNormalPath(path: string) {
    path != "" && path[0] == '/' && UrlPath.AllSafe(path)
  }

  /** The pieces a first pass produces. */
  predicate IsNormal(env: Env, p: Pieces) {
    && p.scheme in {"http", "https"} && IsCanonical(p.host)
    && IsPort(p.port) && ShownPort(p.scheme, p.port) == p.port
    && IsNormalPath(p.path)
    && IsQueryText(p.query) && UrlQuery.Clean(env.codec, p.query) == p.query
  }

  lemma PathIsNormal(path: string)
    requires UrlPath.IsUrlPath(path) && UrlPath.IsPrintable(path) && UrlPath.PathOf(path).Ok?
    ensures IsNormalPath(UrlPath.PathOf(path).value)
  {
    var root, segments, tail := UrlPath.PathShape(path);
  }

  lemma QueryIsNormal(env: Env, query: string)
    requires Lawful(env)
    ensures var q := UrlQuery.Clean(env.codec, query); IsQueryText(q) && UrlQuery.Clean(env.codec, q) == q
  {
    UrlQuery.CleanIsIdempotent(env.codec, query);
    EncodeIsQueryText(UrlQuery.Sort(env.codec, UrlQuery.Untracked(env.codec, UrlQuery.Parse(env.codec, query))));
  }

  lemma CutIsPrintable(s: string, n: nat)
    requires UrlPath.IsPrintable(s) && n <= |s|
    ensures UrlPath.IsPrintable(s[..n]) && UrlPath.IsPrintable(s[n..])
  {
  }

  lemma HierarchyIsPrintable(scheme: string, rest: string)
    requires UrlPath.IsPrintable(rest)
    ensures var parts := SplitHierarchy(scheme, rest);
      UrlPath.IsPrintable(parts.netloc) && UrlPath.IsPrintable(parts.path)
  {
    var n := FirstOf(rest, AuthorityEnd);
    CutIsPrintable(rest, n);
    var tail := rest[n..];
    CutIsPrintable(tail, FirstOf(tail, At('#')));
    var located := Before(tail, At('#'));
    CutIsPrintable(located, FirstOf(located, At('?')));
  }

  lemma PartsArePrintable(url: string, parts: Parts)
    requires UrlPath.IsPrintable(url) && SplitUrl(url) == Ok(parts)
    ensures parts.scheme in {"http", "https"} && Without(parts.netloc, AuthorityEnd)
    ensures UrlPath.IsPrintable(parts.netloc) && UrlPath.IsPrintable(parts.path) && UrlPath.IsUrlPath(parts.path)
  {
    var rest := After(url, At(':'));
    CutIsPrintable(url, FirstOf(url, At(':')) + 1);
    CutIsPrintable(rest, 2);
    HierarchyIsPrintable(parts.scheme, rest[2..]);
  }

  lemma PiecesAreNormal(env: Env, url: string, p: Pieces)
    requires Lawful(env) && UrlPath.IsPrintable(url) && PiecesOf(env, url) == Ok(p)
    ensures IsNormal(env, p)
  {
    var parts := SplitUrl(url).value;
    PartsArePrintable(url, parts);
    AuthorityIsCanonical(env, parts.netloc);
    PathIsNormal(parts.path);
    QueryIsNormal(env, parts.query);
  }

  // ------------------------------------------------------------- reading back

  lemma SafeTextIsUncut(path: string, query: string)
    requires UrlPath.AllSafe(path) && IsQueryText(query)
    ensures Without(path, At('?')) && Without(path, At('#')) && Without(query, At('#'))
  {
  }

  /** A normalised URL splits into the pieces it was put together from. */
  lemma NormalReadsBack(env: Env, p: Pieces)
    requires IsNormal(env, p)
    ensures SplitUrl(Compose(p)) == Ok(Parts(p.scheme, Netloc(p.host, p.port), p.path, p.query))
  {
    NetlocText(p.host, p.port);
    SafeTextIsUncut(p.path, p.query);
    SplitOfUnsplit(Parts(p.scheme, Netloc(p.host, p.port), p.path, p.query));
  }

  /** Different pieces give different URLs. */
  lemma NormalIsInjective(env: Env, p: Pieces, q: Pieces)
    requires IsNormal(env, p) && IsNormal(env, q) && Compose(p) == Compose(q)
    ensures p == q
  {
    NormalReadsBack(env, p);
    NormalReadsBack(env, q);
    NetlocIsInjective(p.host, p.port, q.host, q.port);
  }

  predicate IsInk(c: char) {
    c as int >= 32 && c as int != 127 && !IsSpace(c)
  }

  predicate IsInked(s: string) {
    forall i :: 0 <= i < |s| ==> IsInk(s[i])
  }

  lemma SafeTextIsInk(path: string, query: string)
    requires UrlPath.AllSafe(path) && IsQueryText(query)
    ensures IsInked(path) && IsInked(query)
  {
  }

  /** No control characters, and nothing for `strip` to remove. */
  lemma NormalIsClean(env: Env, p: Pieces)
    requires IsNormal(env, p)
    ensures UrlPath.IsPrintable(Compose(p)) && Strip(Compose(p)) == Compose(p) != ""
  {
    NetlocText(p.host, p.port);
    SafeTextIsInk(p.path, p.query);
    CleanPieces(p.scheme, Netloc(p.host, p.port), p.path, p.query);
    StripIsAPart(Compose(p));
  }

  lemma CleanPieces(scheme: string, netloc: string, path: string, query: string)
    requires scheme in {"http", "https"} && UrlPath.IsPrintable(netloc) && IsInked(path) && IsInked(query) && path != ""
    ensures var url := Unsplit(Parts(scheme, netloc, path, query));
      UrlPath.IsPrintable(url) && IsTrimmed(url) && url != ""
  {
    SchemePart(scheme, netloc + (path + QueryPart(query)));
    InkedTail(path, query);
    Concatenated(scheme + "://", netloc, path + QueryPart(query));
  }

  lemma SchemePart(scheme: string, rest: string)
    requires scheme in {"http", "https"}
    ensures scheme + (":" + ("//" + rest)) == (scheme + "://") + rest
    ensures UrlPath.IsPrintable(scheme + "://") && IsInk((scheme + "://")[0])
  {
  }

  lemma InkedTail(path: string, query: string)
    requires IsInked(path) && IsInked(query) && path != ""
    ensures IsInked(path + QueryPart(query))
  {
    assert IsInked(QueryPart(query));
  }

  lemma Concatenated(front: string, middle: string, back: string)
    requires UrlPath.IsPrintable(front) && UrlPath.IsPrintable(middle) && IsInked(back) && back != ""
    requires front != "" && IsInk(front[0])
    ensures UrlPath.IsPrintable(front + (middle + back)) && IsTrimmed(front + (middle + back))
  {
    var whole := front + (middle + back);
    assert whole[0] == front[0] && whole[|whole| - 1] == back[|back| - 1];
  }

  // ------------------------------------------------------------- second pass

  /** With a stable host, a second pass keeps every piece but perhaps the path. */
  lemma SecondPassOnStableHost(env: Env, p: Pieces)
    requires Lawful(env) && IsNormal(env, p) && IsStableHost(env, p.host)
    ensures var path := UrlPath.PathOf(p.path);
      PiecesOf(env, Compose(p)) == if path.Ok? then Ok(p.(path := path.value)) else Err(BadPath(path.error))
  {
    NormalReadsBack(env, p);
    AuthorityReadsBackIff(env, p.host, p.port);
  }

  /** With an unstable one it fails, or it reads another host. */
  lemma SecondPassOnUnstableHost(env: Env, p: Pieces)
    requires Lawful(env) && IsNormal(env, p) && !IsStableHost(env, p.host)
    ensures PiecesOf(env, Compose(p)) != Ok(p)
  {
    NormalReadsBack(env, p);
    AuthorityReadsBackIff(env, p.host, p.port);
    if PiecesOf(env, Compose(p)).Ok? {
      ReadAuthority(env, Compose(p), Parts(p.scheme, Netloc(p.host, p.port), p.path, p.query));
    }
  }

  /** The host of the pieces of a URL is the one its authority gives. */
  lemma ReadAuthority(env: Env, url: string, parts: Parts)
    requires SplitUrl(url) == Ok(parts) && PiecesOf(env, url).Ok?
    ensures Authority(env, parts.netloc).Ok?
    ensures PiecesOf(env, url).value.host == Authority(env, parts.netloc).value.0
    ensures PiecesOf(env, url).value.port == ShownPort(parts.scheme, Authority(env, parts.netloc).value.1)
  {
  }

  predicate IsBareSlashes(path: string) {
    path == "//" || path == "///"
  }

  lemma ShapeIsBareSlashes(root: string, segments: seq<string>, tail: string)
    requires UrlPath.IsShape(root, segments, tail) && (segments == [] && root == "/" ==> tail == "")
    ensures IsBareSlashes(UrlPath.Shape(root, segments, tail)) <==> root == "//" && segments == []
  {
    if segments == [] {
      assert UrlPath.Shape(root, segments, tail) == root + tail;
    } else {
      UrlPath.JoinEnds(segments);
      assert UrlPath.Shape(root, segments, tail)[|root|] == Join(segments, '/')[0];
    }
  }

  /** A second pass over an accepted path never fails, and changes it exactly if
      it is bare slashes. */
  lemma PathIsFixedIff(path: string, once: string)
    requires UrlPath.IsUrlPath(path) && UrlPath.IsPrintable(path) && UrlPath.PathOf(path) == Ok(once)
    ensures UrlPath.IsUrlPath(once) && UrlPath.PathOf(once).Ok?
    ensures UrlPath.PathOf(once).value == once <==> !IsBareSlashes(once)
  {
    UrlPath.PathIsIdempotentIff(path);
    var root, segments, tail := UrlPath.PathShape(path);
    ShapeIsBareSlashes(root, segments, tail);
  }

  /** The pieces of an accepted URL. */
  function Accepted(env: Env, raw: string): Pieces
    requires NormalizeUrl(env, raw).Ok?
  {
    PiecesOf(env, Strip(raw)).value
  }

  /** The result is a clean text within the length limit that reads back as its
      pieces. */
  lemma NormalizedReadsBack(env: Env, raw: string, out: string, p: Pieces)
    requires Lawful(env) && NormalizeUrl(env, raw) == Ok(out) && p == Accepted(env, raw)
    ensures IsNormal(env, p) && out == Compose(p) && |out| <= MAX_LENGTH
    ensures UrlPath.IsPrintable(out) && Strip(out) == out != ""
    ensures SplitUrl(out) == Ok(Parts(p.scheme, Netloc(p.host, p.port), p.path, p.query))
  {
    PiecesAreNormal(env, Strip(raw), p);
    NormalIsClean(env, p);
    NormalReadsBack(env, p);
  }

  lemma AcceptedPathIsFixedIff(env: Env, raw: string, p: Pieces)
    requires Lawful(env) && NormalizeUrl(env, raw).Ok? && p == Accepted(env, raw)
    ensures UrlPath.IsUrlPath(p.path) && UrlPath.PathOf(p.path).Ok?
    ensures UrlPath.PathOf(p.path).value == p.path <==> !IsBareSlashes(p.path)
  {
    var parts := SplitUrl(Strip(raw)).value;
    PartsArePrintable(Strip(raw), parts);
    PathIsFixedIff(parts.path, p.path);
  }

  lemma CleanTextIsFixedIff(env: Env, url: string)
    requires UrlPath.IsPrintable(url) && Strip(url) == url != "" && |url| <= MAX_LENGTH
    ensures NormalizeUrl(env, url) == Ok(url) <==>
      PiecesOf(env, url).Ok? && Compose(PiecesOf(env, url).value) == url
  {
  }

  /** Reading the text put together from normal pieces and putting it together
      again gives the text back exactly when the pieces come back. */
  lemma RebuiltIffPiecesComeBack(env: Env, p: Pieces, url: string, again: Result<Pieces, UrlError>)
    requires Lawful(env) && IsNormal(env, p) && url == Compose(p) && UrlPath.IsPrintable(url)
    requires again == PiecesOf(env, url)
    ensures again.Ok? && Compose(again.value) == url <==> again == Ok(p)
  {
    if again.Ok? && Compose(again.value) == url {
      PiecesAreNormal(env, url, again.value);
      NormalIsInjective(env, p, again.value);
    }
  }

  /** Normalising twice is normalising once, exactly when the host is stable and
      the path is not bare slashes. */
  lemma NormalizeIsIdempotentIff(env: Env, raw: string, out: string, p: Pieces)
    requires Lawful(env) && NormalizeUrl(env, raw) == Ok(out) && p == Accepted(env, raw)
    ensures NormalizeUrl(env, out) == Ok(out) <==> IsStableHost(env, p.host) && !IsBareSlashes(p.path)
  {
    NormalizedReadsBack(env, raw, out, p);
    AcceptedPathIsFixedIff(env, raw, p);
    if IsStableHost(env, p.host) {
      SecondPassOnStableHost(env, p);
    } else {
      SecondPassOnUnstableHost(env, p);
    }
    CleanTextIsFixedIff(env, out);
    RebuiltIffPiecesComeBack(env, p, out, PiecesOf(env, out));
  }

  /** Two accepted URLs have the same normal form exactly when they agree in
      scheme, host, port, cleaned path and cleaned query. */
  lemma SameFormIffSamePieces(env: Env, raw: string, other: string)
    requires Lawful(env) && NormalizeUrl(env, raw).Ok? && NormalizeUrl(env, other).Ok?
    ensures NormalizeUrl(env, raw) == NormalizeUrl(env, other) <==> Accepted(env, raw) == Accepted(env, other)
  {
    var p, q := Accepted(env, raw), Accepted(env, other);
    PiecesAreNormal(env, Strip(raw), p);
    PiecesAreNormal(env, Strip(other), q);
    if Compose(p) == Compose(q) { NormalIsInjective(env, p, q); }
  }

  /** The text passes the checks made before it is taken apart. */
  predicate IsCandidate(raw: string) {
    Strip(raw) != "" && UrlPath.IsPrintable(Strip(raw)) && |Strip(raw)| <= MAX_LENGTH
  }

  lemma SamePathSamePieces(env: Env, url: string, other: string, parts: Parts, path: string)
    requires SplitUrl(url) == Ok(parts) && SplitUrl(other) == Ok(parts.(path := path))
    requires UrlPath.IsUrlPath(parts.path) && UrlPath.IsUrlPath(path)
    requires UrlPath.PathOf(path) == UrlPath.PathOf(parts.path)
    ensures PiecesOf(env, url) == PiecesOf(env, other)
  {
  }

  lemma SamePiecesSameForm(env: Env, raw: string, other: string)
    requires IsCandidate(raw) && IsCandidate(other)
    requires PiecesOf(env, Strip(raw)) == PiecesOf(env, Strip(other))
    ensures NormalizeUrl(env, raw) == NormalizeUrl(env, other)
  {
  }

  /** URLs that differ in a segment undone by a double dot have the same normal
      form, or are refused alike. */
  lemma DetourHasTheSameForm(
    env: Env, raw: string, other: string, parts: Parts, detour: string, a: string, segment: string, b: string)
    requires IsCandidate(raw) && IsCandidate(other)
    requires SplitUrl(Strip(raw)) == Ok(parts) && SplitUrl(Strip(other)) == Ok(parts.(path := detour))
    requires UrlPath.IsUrlPath(parts.path) && UrlPath.IsUrlPath(detour) && UrlPath.IsSegment(segment)
    requires UrlPath.Unescaped(parts.path) == Ok(a + ("/" + b))
    requires UrlPath.Unescaped(detour) == Ok(a + ("/" + (segment + ("/" + (".." + ("/" + b))))))
    requires (a == "" || a[0] == '/') && (|a| <= 1 ==> b == "" || b[0] != '/')
    ensures NormalizeUrl(env, raw) == NormalizeUrl(env, other)
  {
    UrlPath.DetourIsCleaned(parts.path, detour, a, segment, b);
    SamePathSamePieces(env, Strip(raw), Strip(other), parts, detour);
    SamePiecesSameForm(env, raw, other);
  }
}
