/** URL canonicalisation (audit_engine/urls.py:52-63, 82-144): what `normalize_url`
    makes of a URL, when a second pass leaves it alone, and which hosts are
    approved. */
module Urls {
  import opened Outcomes
  import opened Splitting
  import opened Decimals
  import UrlPath
  import UrlQuery

  /** Library behaviour the URL layer relies on: text codecs, the host encoding,
      and the two checks the URL parser makes of an authority. */
  datatype Env = Env(
    codec: UrlQuery.Codec,
    foldHost: string -> string,
    idna: string -> Option<string>,
    authorityOk: string -> bool,
    bracketOk: string -> bool)

  /** A character an authority without credentials may be written with. */
  predicate IsHostChar(c: char) {
    c as int >= 32 && c as int != 127 && c != '/' && c != '?' && c != '#' && c != '@'
  }

  predicate IsHostText(s: string) {
    forall i :: 0 <= i < |s| ==> IsHostChar(s[i])
  }

  function LowerChar(c: char): char {
    if 'A' <= c <= 'Z' then (c as int + 32) as char else c
  }

  function Lower(s: string): (t: string)
    ensures |t| == |s| && forall i :: 0 <= i < |s| ==> t[i] == LowerChar(s[i])
  {
    seq(|s|, i requires 0 <= i < |s| => LowerChar(s[i]))
  }

  predicate LabelsOk(host: string) {
    var labels := SplitOn(host, '.');
    forall i :: 0 <= i < |labels| ==> 0 < |labels[i]| <= 63
  }

  /** Plain lower-case ASCII that could stand in an authority. */
  predicate IsEncoded(s: string) {
    IsHostText(s) && UrlQuery.AllAscii(s) && Lower(s) == s
  }

  /** What the encoding is given of a host. */
  function Candidate(env: Env, host: string): string {
    env.foldHost(StripDots(Strip(host)))
  }

  /** Encoding the host of an authority that passed the parser's normalisation
      check gives lower-case ASCII that could stand in an authority; brackets may
      be new. */
  ghost predicate EncodesChecked(env: Env) {
    forall netloc :: env.authorityOk(netloc) && IsHostText(netloc) ==>
      var encoded := env.idna(Candidate(env, HostAndPort(netloc).0));
      encoded.Some? ==> IsEncoded(encoded.value)
  }

  /** What is assumed of the library. */
  ghost predicate Lawful(env: Env) {
    UrlQuery.Lawful(env.codec) && PlainOnAscii(env) && EncodesChecked(env)
  }

  /** Folding is lower-casing on ASCII, encoding leaves ASCII alone and fails only
      on bad labels, and ASCII authorities pass the check. */
  ghost predicate PlainOnAscii(env: Env) {
    && (forall s :: UrlQuery.AllAscii(s) ==> env.foldHost(s) == Lower(s))
    && (forall s :: UrlQuery.AllAscii(s) ==> env.idna(s) in {None, Some(s)})
    && (forall s :: UrlQuery.AllAscii(s) && LabelsOk(s) ==> env.idna(s) == Some(s))
    && (forall s :: UrlQuery.AllAscii(s) ==> env.authorityOk(s))
  }

  lemma HostIsAPart(netloc: string)
    ensures forall c :: c in HostAndPort(netloc).0 ==> c in netloc
    ensures IsHostText(netloc) ==> IsHostText(HostAndPort(netloc).0)
  {
    var host := HostAndPort(netloc).0;
    assert forall i :: 0 <= i < |host| ==> host[i] in host;
    assert forall i :: 0 <= i < |netloc| ==> netloc[i] in netloc;
  }

  // ------------------------------------------------------------ trimming

  /** What `str.strip` removes. */
  predicate IsSpace(c: char) {
    var n := c as int;
    || 9 <= n <= 13 || 28 <= n <= 32 || n == 133 || n == 160 || n == 5760 || 8192 <= n <= 8202
    || n == 8232 || n == 8233 || n == 8239 || n == 8287 || n == 12288
  }

  /** The whitespace of `str.strip`, character by character. */
  lemma SpacesAre(c: char)
    ensures IsSpace(c) <==>
      || c in "\t\n\U{000B}\U{000C}\r\U{001C}\U{001D}\U{001E}\U{001F} \U{0085}\U{00A0}\U{1680}"
      || c in "\U{2000}\U{2001}\U{2002}\U{2003}\U{2004}\U{2005}\U{2006}\U{2007}\U{2008}\U{2009}\U{200A}"
      || c in "\U{2028}\U{2029}\U{202F}\U{205F}\U{3000}"
  {
  }

  /** Lower-casing, letter by letter. */
  lemma LowerCharTells(c: char)
    ensures 'A' <= c <= 'Z' ==> LowerChar(c) == "abcdefghijklmnopqrstuvwxyz"[c as int - 'A' as int]
    ensures c < 'A' || 'Z' < c ==> LowerChar(c) == c
  {
  }

  function StripLeft(s: string): string {
    if s != "" && IsSpace(s[0]) then StripLeft(s[1..]) else s
  }

  function StripRight(s: string): string {
    if s != "" && IsSpace(s[|s| - 1]) then StripRight(s[..|s| - 1]) else s
  }

  function Strip(s: string): string {
    StripRight(StripLeft(s))
  }

  function StripDots(s: string): string {
    if s != "" && s[|s| - 1] == '.' then StripDots(s[..|s| - 1]) else s
  }

  /** Neither end is a space. */
  predicate IsTrimmed(s: string) {
    s != "" ==> !IsSpace(s[0]) && !IsSpace(s[|s| - 1])
  }

  lemma {:induction false} StripRightIsPrefix(s: string)
    ensures StripRight(s) <= s && (StripRight(s) != "" ==> !IsSpace(StripRight(s)[|StripRight(s)| - 1]))
  {
    if s != "" && IsSpace(s[|s| - 1]) { StripRightIsPrefix(s[..|s| - 1]); }
  }

  lemma {:induction false} StripLeftIsSuffix(s: string)
    ensures |StripLeft(s)| <= |s| && StripLeft(s) == s[|s| - |StripLeft(s)|..]
    ensures StripLeft(s) != "" ==> !IsSpace(StripLeft(s)[0])
  {
    if s != "" && IsSpace(s[0]) { StripLeftIsSuffix(s[1..]); }
  }

  lemma {:induction false} StripDotsIsPrefix(s: string)
    ensures StripDots(s) <= s && (StripDots(s) != "" ==> StripDots(s)[|StripDots(s)| - 1] != '.')
  {
    if s != "" && s[|s| - 1] == '.' { StripDotsIsPrefix(s[..|s| - 1]); }
  }

  /** A stretch of the text: every character of it comes from there. */
  lemma StripIsAPart(s: string)
    ensures |Strip(s)| <= |s| && IsTrimmed(Strip(s))
    ensures forall c :: c in Strip(s) ==> c in s
    ensures IsTrimmed(s) ==> Strip(s) == s
    ensures |Strip(s)| == |s| ==> IsTrimmed(s)
  {
    StripLeftIsSuffix(s);
    StripRightIsPrefix(StripLeft(s));
  }

  // --------------------------------------------------------------- hosts

  /** The canonical host: trimmed, without trailing dots, folded and encoded. */
  function CanonicalHost(env: Env, host: string): Option<string> {
    var candidate := Candidate(env, host);
    if candidate == "" || |candidate| > 253 then None
    else
      var encoded := env.idna(candidate);
      if encoded.None? || !LabelsOk(encoded.value) then None else encoded
  }

  lemma {:induction false} LastLabel(host: string)
    requires host != "" && host[|host| - 1] == '.'
    ensures var labels := SplitOn(host, '.'); labels[|labels| - 1] == ""
  {
    SplitTrailing(host[..|host| - 1], '.');
    assert host == host[..|host| - 1] + ['.'];
  }

  lemma EmptyHasNoLabels()
    ensures !LabelsOk("")
  {
    assert SplitOn("", '.')[0] == "";
  }

  /** The canonical host of a checked authority. */
  lemma CanonicalHostText(env: Env, netloc: string, canonical: string)
    requires Lawful(env) && env.authorityOk(netloc) && IsHostText(netloc)
    requires CanonicalHost(env, HostAndPort(netloc).0) == Some(canonical)
    ensures IsHostText(canonical) && UrlQuery.AllAscii(canonical) && Lower(canonical) == canonical
    ensures LabelsOk(canonical) && canonical != ""
  {
    EmptyHasNoLabels();
  }

  // ------------------------------------------------------ taking URLs apart

  datatype UrlError =
    | EmptyOrControl | TooLong | BadScheme | BadAuthority | Credentials | NoHost | BadHost | BadPort
    | BadPath(error: UrlPath.PathError)

  datatype Parts = Parts(scheme: string, netloc: string, path: string, query: string)

  /** Where to cut: at a given character, or at the end of the authority. */
  datatype Stop = At(c: char) | AuthorityEnd

  predicate Stops(stop: Stop, c: char) {
    match stop
    case At(d) => c == d
    case AuthorityEnd => c == '/' || c == '?' || c == '#'
  }

  predicate Without(s: string, stop: Stop) {
    forall i :: 0 <= i < |s| ==> !Stops(stop, s[i])
  }

  /** The position of the first stop. */
  function FirstOf(s: string, stop: Stop): (n: nat)
    ensures n <= |s| && Without(s[..n], stop) && (n < |s| ==> Stops(stop, s[n]))
  {
    if s == "" || Stops(stop, s[0]) then 0
    else
      var n := FirstOf(s[1..], stop);
      assert s[..n + 1] == [s[0]] + s[1..][..n];
      1 + n
  }

  lemma {:induction false} FirstOfIsFirst(s: string, stop: Stop, i: nat)
    requires i < |s| && Stops(stop, s[i])
    ensures FirstOf(s, stop) <= i
  {
    if i > 0 && !Stops(stop, s[0]) { FirstOfIsFirst(s[1..], stop, i - 1); }
  }

  /** What comes before the first stop. */
  function Before(s: string, stop: Stop): string {
    s[..FirstOf(s, stop)]
  }

  /** What follows the first stop, which is left out. */
  function After(s: string, stop: Stop): string {
    var n := FirstOf(s, stop);
    if n < |s| then s[n + 1..] else ""
  }

  /** The pieces of an HTTP URL, its fragment dropped. */
  function SplitUrl(url: string): Result<Parts, UrlError> {
    var scheme, tail := Lower(Before(url, At(':'))), After(url, At(':'));
    if Without(url, At(':')) || scheme !in {"http", "https"} then Err(BadScheme)
    else if !(|tail| >= 2 && tail[0] == '/' && tail[1] == '/') then Err(NoHost)
    else Ok(SplitHierarchy(scheme, tail[2..]))
  }

  /** The authority up to the first slash, question mark or hash; then the path
      and the query, up to a hash. */
  function SplitHierarchy(scheme: string, rest: string): (parts: Parts)
    ensures UrlPath.IsUrlPath(parts.path)
  {
    var tail := rest[FirstOf(rest, AuthorityEnd)..];
    var located := Before(tail, At('#'));
    Parts(scheme, Before(rest, AuthorityEnd), Before(located, At('?')), After(located, At('?')))
  }

  function QueryPart(query: string): string {
    if query == "" then "" else "?" + query
  }

  function Unsplit(parts: Parts): string {
    parts.scheme + (":" + ("//" + (parts.netloc + (parts.path + QueryPart(parts.query)))))
  }

  lemma {:induction false} FirstOfConcat(a: string, b: string, stop: Stop)
    requires Without(a, stop)
    ensures FirstOf(a + b, stop) == |a| + FirstOf(b, stop)
  {
    if a == "" {
      assert a + b == b;
    } else {
      FirstOfConcat(a[1..], b, stop);
      assert (a + b)[1..] == a[1..] + b;
    }
  }

  /** Cutting at the first stop. */
  lemma {:induction false} CutFirst(a: string, b: string, stop: Stop)
    requires Without(a, stop) && (b != "" ==> Stops(stop, b[0]))
    ensures FirstOf(a + b, stop) == |a| && Before(a + b, stop) == a && (a + b)[|a|..] == b
    ensures After(a + b, stop) == if b == "" then "" else b[1..]
  {
    FirstOfConcat(a, b, stop);
    if b != "" { assert (a + b)[|a| + 1..] == b[1..]; }
  }

  /** Text without the stop is not cut. */
  lemma Uncut(s: string, stop: Stop)
    requires Without(s, stop)
    ensures Before(s, stop) == s && After(s, stop) == ""
  {
    CutFirst(s, "", stop);
    assert s + "" == s;
  }

  /** What follows the authority: the path up to a question mark, the query
      after it. */
  lemma SplitTail(path: string, query: string)
    requires Without(path, At('?')) && Without(path, At('#')) && Without(query, At('#'))
    ensures var tail := path + QueryPart(query);
      Before(tail, At('#')) == tail && Before(tail, At('?')) == path && After(tail, At('?')) == query
  {
    Uncut(path + QueryPart(query), At('#'));
    CutFirst(path, QueryPart(query), At('?'));
    if query != "" { assert QueryPart(query)[1..] == query; }
  }

  lemma SplitAfterScheme(scheme: string, rest: string)
    requires scheme in {"http", "https"}
    ensures SplitUrl(scheme + (":" + ("//" + rest))) == Ok(SplitHierarchy(scheme, rest))
  {
    SchemeIsPlain(scheme);
    SplitAtColon(scheme, "//" + rest);
    assert ("//" + rest)[2..] == rest;
  }

  lemma SplitAtColon(scheme: string, tail: string)
    requires Without(scheme, At(':'))
    ensures var url := scheme + (":" + tail);
      Before(url, At(':')) == scheme && After(url, At(':')) == tail && !Without(url, At(':'))
  {
    CutFirst(scheme, ":" + tail, At(':'));
    assert (":" + tail)[1..] == tail;
    assert (scheme + (":" + tail))[|scheme|] == ':';
  }

  lemma SchemeIsPlain(scheme: string)
    requires scheme in {"http", "https"}
    ensures Without(scheme, At(':')) && Lower(scheme) == scheme
  {
  }

  /** Splitting a URL put together from clean parts gives the parts back. */
  lemma SplitOfUnsplit(parts: Parts)
    requires parts.scheme in {"http", "https"} && Without(parts.netloc, AuthorityEnd)
    requires parts.path != "" && parts.path[0] == '/' && Without(parts.path, At('?')) && Without(parts.path, At('#'))
    requires Without(parts.query, At('#'))
    ensures SplitUrl(Unsplit(parts)) == Ok(parts)
  {
    var tail := parts.path + QueryPart(parts.query);
    SplitAfterScheme(parts.scheme, parts.netloc + tail);
    CutFirst(parts.netloc, tail, AuthorityEnd);
    SplitTail(parts.path, parts.query);
  }

  // -------------------------------------------------------------- authority

  /** The host as written and the port text, after the bracket if there is one. */
  function HostAndPort(netloc: string): (string, string) {
    if '[' in netloc then
      var inner := After(netloc, At('['));
      (Before(inner, At(']')), After(After(inner, At(']')), At(':')))
    else (Before(netloc, At(':')), After(netloc, At(':')))
  }

  /** The brackets of an authority match, around a host that may stand in them. */
  predicate BracketsOk(env: Env, netloc: string) {
    ('[' in netloc <==> ']' in netloc) && ('[' in netloc ==> env.bracketOk(HostAndPort(netloc).0))
  }

  function PortOf(text: string): Result<Option<nat>, UrlError> {
    if text == "" then Ok(None)
    else if !AllDigits(text) || !(1 <= Value(text) <= 65535) then Err(BadPort)
    else Ok(Some(Value(text)))
  }

  function ShownPort(scheme: string, port: Option<nat>): Option<nat> {
    if (scheme == "http" && port == Some(80)) || (scheme == "https" && port == Some(443)) then None else port
  }

  function PortPart(port: Option<nat>): string {
    if port.Some? then ":" + Decimal(port.value) else ""
  }

  function Netloc(host: string, port: Option<nat>): string {
    if ':' in host then "[" + (host + ("]" + PortPart(port))) else host + PortPart(port)
  }

  /** A normalised URL in pieces. */
  datatype Pieces = Pieces(scheme: string, host: string, port: Option<nat>, path: string, query: string)

  function Compose(p: Pieces): string {
    Unsplit(Parts(p.scheme, Netloc(p.host, p.port), p.path, p.query))
  }

  /** The canonical host and the port of an authority. */
  function Authority(env: Env, netloc: string): Result<(string, Option<nat>), UrlError> {
    if !env.authorityOk(netloc) || !BracketsOk(env, netloc) then Err(BadAuthority)
    else if '@' in netloc then Err(Credentials)
    else
      var (hostname, portText) := HostAndPort(netloc);
      if hostname == "" then Err(NoHost)
      else
        var host := CanonicalHost(env, hostname);
        if host.None? then Err(BadHost)
        else
          var port := PortOf(portText);
          if port.Err? then Err(port.error) else Ok((host.value, port.value))
  }

  /** The normalised pieces of a URL text. */
  function PiecesOf(env: Env, url: string): Result<Pieces, UrlError> {
    var split := SplitUrl(url);
    if split.Err? then Err(split.error)
    else
      var parts := split.value;
      var authority := Authority(env, parts.netloc);
      if authority.Err? then Err(authority.error)
      else
        var path := UrlPath.PathOf(parts.path);
        if path.Err? then Err(BadPath(path.error))
        else
          var (host, port) := authority.value;
          Ok(Pieces(parts.scheme, host, ShownPort(parts.scheme, port), path.value,
                    UrlQuery.Clean(env.codec, parts.query)))
  }

  const MAX_LENGTH := 8192

  function NormalizeUrl(env: Env, raw: string): Result<string, UrlError> {
    var candidate := Strip(raw);
    if candidate == "" || !UrlPath.IsPrintable(candidate) then Err(EmptyOrControl)
    else if |candidate| > MAX_LENGTH then Err(TooLong)
    else
      var pieces := PiecesOf(env, candidate);
      if pieces.Err? then Err(pieces.error)
      else if |Compose(pieces.value)| > MAX_LENGTH then Err(TooLong)
      else Ok(Compose(pieces.value))
  }
}
