/** Accepted URLs that a second pass changes or refuses (audit_engine/urls.py:52-63,
    82-144): one for each clause of what makes a host stable, and the bare slashes;
    and a library, true to the assumptions, that has all the ways of encoding
    needed for them. */
module UrlDrift {
  import opened Outcomes
  import opened Splitting
  import opened Urls
  import opened UrlNormalForm
  import UrlPath
  import UrlQuery

  // ------------------------------------------------------------- whole URLs

  lemma EmptyQuery(env: Env)
    ensures UrlQuery.Clean(env.codec, "") == ""
  {
    assert SplitOn("", '&') == [""];
    assert [""][1..] == [];
    assert UrlQuery.ParsePieces(env.codec, [""]) == [] + UrlQuery.ParsePieces(env.codec, []);
    assert UrlQuery.ParsePieces(env.codec, []) == [];
    assert UrlQuery.EncodeItems([]) == [];
  }

  /** An HTTP URL of an authority and a path. */
  function PlainUrl(netloc: string, path: string): string {
    Unsplit(Parts("http", netloc, path, ""))
  }

  lemma PlainUrlIsClean(netloc: string, path: string)
    requires IsHostText(netloc) && IsNormalPath(path)
    ensures SplitUrl(PlainUrl(netloc, path)) == Ok(Parts("http", netloc, path, ""))
    ensures UrlPath.IsPrintable(PlainUrl(netloc, path)) && Strip(PlainUrl(netloc, path)) == PlainUrl(netloc, path) != ""
  {
    SafeTextIsUncut(path, "");
    SafeTextIsInk(path, "");
    SplitOfUnsplit(Parts("http", netloc, path, ""));
    CleanPieces("http", netloc, path, "");
    StripIsAPart(PlainUrl(netloc, path));
  }

  lemma PlainUrlLength(netloc: string, path: string)
    ensures |PlainUrl(netloc, path)| == 7 + |netloc| + |path|
  {
  }

  lemma PlainUrlOf(host: string, path: string)
    requires ':' !in host
    ensures Compose(Pieces("http", host, None, path, "")) == PlainUrl(host, path)
  {
    assert host + "" == host;
  }

  lemma PiecesOfPlainUrl(env: Env, netloc: string, path: string)
    requires IsHostText(netloc) && IsNormalPath(path) && UrlPath.PathOf(path).Ok?
    ensures var authority, pieces := Authority(env, netloc), PiecesOf(env, PlainUrl(netloc, path));
      if authority.Err? then pieces == Err(authority.error)
      else pieces == Ok(Pieces("http", authority.value.0, ShownPort("http", authority.value.1),
                               UrlPath.PathOf(path).value, ""))
  {
    PlainUrlIsClean(netloc, path);
    EmptyQuery(env);
  }

  /** What becomes of such a URL. */
  lemma NormalizePlainUrl(env: Env, netloc: string, path: string, host: string, next: string)
    requires IsHostText(netloc) && IsNormalPath(path) && |netloc| + |path| <= 4000
    requires Authority(env, netloc) == Ok((host, None)) && |host| + |next| <= 4000
    requires UrlPath.PathOf(path) == Ok(next)
    ensures NormalizeUrl(env, PlainUrl(netloc, path)) == Ok(PlainUrl(Netloc(host, None), next))
  {
    PlainUrlIsClean(netloc, path);
    PiecesOfPlainUrl(env, netloc, path);
    PlainUrlLength(netloc, path);
    PlainUrlLength(Netloc(host, None), next);
  }

  lemma RefusePlainUrl(env: Env, netloc: string, path: string)
    requires IsHostText(netloc) && IsNormalPath(path) && |netloc| + |path| <= 4000
    requires Authority(env, netloc).Err? && UrlPath.PathOf(path).Ok?
    ensures NormalizeUrl(env, PlainUrl(netloc, path)) == Err(Authority(env, netloc).error)
  {
    PlainUrlIsClean(netloc, path);
    PiecesOfPlainUrl(env, netloc, path);
    PlainUrlLength(netloc, path);
  }

  /** The root of a site. */
  function Root(netloc: string): string {
    PlainUrl(netloc, "/")
  }

  /** A first pass gives the site another authority, and a second pass refuses it. */
  lemma RefusedNext(env: Env, netloc: string, host: string, error: UrlError)
    requires IsHostText(netloc) && IsHostText(host) && |netloc| <= 1100 && |host| <= 1100
    requires Authority(env, netloc) == Ok((host, None)) && Authority(env, Netloc(host, None)) == Err(error)
    ensures NormalizeUrl(env, Root(netloc)) == Ok(Root(Netloc(host, None)))
    ensures NormalizeUrl(env, Root(Netloc(host, None))) == Err(error)
  {
    UrlPath.BareSlashesDrift();
    NetlocText(host, None);
    NormalizePlainUrl(env, netloc, "/", host, "/");
    RefusePlainUrl(env, Netloc(host, None), "/");
  }

  // ---------------------------------------------------------- bare slashes

  lemma PlainHost(env: Env, host: string)
    requires PlainOnAscii(env) && IsCanonical(host) && IsStableHost(env, host) && ':' !in host
    ensures Authority(env, host) == Ok((host, None)) && Netloc(host, None) == host
  {
    AuthorityReadsBackIff(env, host, None);
    assert Netloc(host, None) == host;
  }

  lemma HostA(env: Env)
    requires PlainOnAscii(env)
    ensures Authority(env, "a") == Ok(("a", None)) && Netloc("a", None) == "a"
  {
    SplitFree("a", '.');
    assert IsCanonical("a");
    PlainHost(env, "a");
  }

  /** At the host `a`, only the path changes. */
  lemma NormalizeAtA(env: Env, path: string, next: string)
    requires Authority(env, "a") == Ok(("a", None)) && Netloc("a", None) == "a"
    requires IsNormalPath(path) && UrlPath.PathOf(path) == Ok(next) && |path| <= 9 && |next| <= 9
    ensures NormalizeUrl(env, "http://a" + path) == Ok("http://a" + next)
  {
    NormalizePlainUrl(env, "a", path, "a", next);
    PlainText(path);
    PlainText(next);
  }

  lemma PlainText(path: string)
    ensures PlainUrl("a", path) == "http://a" + path
  {
    assert path + "" == path;
  }

  /** `http://a//` needs two more passes to settle. */
  lemma BareSlashesUrlDrifts(env: Env)
    requires PlainOnAscii(env)
    ensures NormalizeUrl(env, "http://a" + "//") == Ok("http://a" + "///")
    ensures NormalizeUrl(env, "http://a" + "///") == Ok("http://a" + "/")
    ensures NormalizeUrl(env, "http://a" + "/") == Ok("http://a" + "/")
  {
    HostA(env);
    UrlPath.BareSlashesDrift();
    NormalizeAtA(env, "//", "///");
    NormalizeAtA(env, "///", "/");
    NormalizeAtA(env, "/", "/");
  }

  // ---------------------------------------------------- the clauses on hosts

  /** A host that can end up unstable: trimmed before its dot is dropped, it
      keeps a space that the next pass removes. */
  lemma SpaceBeforeTheDotDrifts(env: Env)
    requires PlainOnAscii(env)
    ensures CanonicalHost(env, "a .") == Some("a ") && CanonicalHost(env, "a ") == Some("a")
    ensures !IsStableHost(env, "a ")
  {
    StripIsAPart("a .");
    assert StripDots("a .") == "a " by { assert "a ."[..2] == "a "; }
    assert StripLeft("a ") == "a " && StripRight("a ") == "a" by { assert "a "[..1] == "a"; }
    SplitFree("a ", '.');
    SplitFree("a", '.');
    assert Lower("a ") == "a " && Lower("a") == "a";
  }

  /** The library accepts a host as written, and encodes it so. */
  predicate Encodes(env: Env, written: string, encoded: string) {
    env.authorityOk(written) && env.foldHost(written) == written && env.idna(written) == Some(encoded)
  }

  /** A host that neither trimming nor dropping dots changes. */
  predicate IsWhole(host: string) {
    host != "" && IsTrimmed(host) && host[|host| - 1] != '.' && |host| <= 253
  }

  /** Plain of anything the parser looks for in an authority. */
  predicate IsUnmarked(s: string) {
    forall i :: 0 <= i < |s| ==> s[i] !in {'@', ':', '[', ']'}
  }

  lemma EncodedHost(env: Env, written: string, encoded: string)
    requires Encodes(env, written, encoded) && IsWhole(written) && LabelsOk(encoded)
    ensures CanonicalHost(env, written) == Some(encoded)
  {
    StripIsAPart(written);
  }

  lemma EncodedAuthority(env: Env, written: string, encoded: string)
    requires Encodes(env, written, encoded) && IsWhole(written) && LabelsOk(encoded) && IsUnmarked(written)
    ensures Authority(env, written) == Ok((encoded, None))
  {
    Uncut(written, At(':'));
    EncodedHost(env, written, encoded);
  }

  const CLOSING := "a\U{FF3D}"
  const OPENING := "a\U{FF3B}"

  lemma Brackets()
    ensures IsWhole(CLOSING) && IsUnmarked(CLOSING) && IsHostText(CLOSING) && |CLOSING| == 2
    ensures IsWhole(OPENING) && IsUnmarked(OPENING) && IsHostText(OPENING) && |OPENING| == 2
    ensures IsHostText("a]") && LabelsOk("a]") && ':' !in "a]" && IsHostText("a[") && LabelsOk("a[") && ':' !in "a["
  {
    SplitFree("a]", '.');
    SplitFree("a[", '.');
  }

  lemma LoneBracketIsRefused(env: Env)
    ensures Authority(env, Netloc("a]", None)) == Err(BadAuthority)
    ensures Authority(env, Netloc("a[", None)) == Err(BadAuthority)
  {
    NetlocText("a]", None);
    NetlocText("a[", None);
    assert "a]"[1] == ']' && "a["[1] == '[';
  }

  /** A host that an encoding gives a closing bracket: accepted, refused from then on. */
  lemma ClosingBracketIsRefusedNext(env: Env)
    requires Encodes(env, CLOSING, "a]")
    ensures NormalizeUrl(env, Root(CLOSING)) == Ok(Root("a]")) && NormalizeUrl(env, Root("a]")) == Err(BadAuthority)
  {
    Brackets();
    LoneBracketIsRefused(env);
    EncodedAuthority(env, CLOSING, "a]");
    RefusedNext(env, CLOSING, "a]", BadAuthority);
    assert Netloc("a]", None) == "a]";
  }

  /** The same for an opening one. */
  lemma OpeningBracketIsRefusedNext(env: Env)
    requires Encodes(env, OPENING, "a[")
    ensures NormalizeUrl(env, Root(OPENING)) == Ok(Root("a[")) && NormalizeUrl(env, Root("a[")) == Err(BadAuthority)
  {
    Brackets();
    LoneBracketIsRefused(env);
    EncodedAuthority(env, OPENING, "a[");
    RefusedNext(env, OPENING, "a[", BadAuthority);
    assert Netloc("a[", None) == "a[";
  }

  /** A link-local address whose scope is a soft hyphen, which an encoding drops. */
  const SCOPED := "fe80::1%\U{00AD}"
  const UNSCOPED := "fe80::1%"

  lemma ScopedText()
    ensures IsWhole(SCOPED) && IsHostText(SCOPED) && |SCOPED| == 9
    ensures ']' !in SCOPED && '@' !in SCOPED && ':' in SCOPED
  {
    assert SCOPED[4] == ':';
  }

  lemma UnscopedText()
    ensures IsHostText(UNSCOPED) && ']' !in UNSCOPED && '@' !in UNSCOPED && ':' in UNSCOPED && |UNSCOPED| == 8
    ensures LabelsOk(UNSCOPED)
  {
    assert UNSCOPED[4] == ':';
    OneLabel(UNSCOPED);
  }

  lemma OneLabel(host: string)
    requires '.' !in host && 0 < |host| <= 63
    ensures LabelsOk(host)
  {
    SplitFree(host, '.');
  }

  lemma BracketedAuthority(env: Env, host: string)
    requires IsHostText(host) && ']' !in host && '@' !in host && ':' in host
    requires env.authorityOk(Netloc(host, None))
    ensures Authority(env, Netloc(host, None)) ==
      if !env.bracketOk(host) then Err(BadAuthority)
      else if CanonicalHost(env, host).None? then Err(BadHost)
      else Ok((CanonicalHost(env, host).value, None))
  {
    var netloc := Netloc(host, None);
    NetlocText(host, None);
    NetlocReadsBack(host, None);
    assert '@' !in netloc;
    assert host != "";
  }

  lemma ScopedAuthority(env: Env)
    requires Encodes(env, SCOPED, UNSCOPED) && env.authorityOk(Netloc(SCOPED, None)) && env.bracketOk(SCOPED)
    ensures Authority(env, Netloc(SCOPED, None)) == Ok((UNSCOPED, None))
  {
    ScopedText();
    UnscopedText();
    EncodedHost(env, SCOPED, UNSCOPED);
    BracketedAuthority(env, SCOPED);
  }

  lemma UnscopedIsRefused(env: Env)
    requires !env.bracketOk(UNSCOPED)
    ensures Authority(env, Netloc(UNSCOPED, None)) == Err(BadAuthority)
  {
    UnscopedText();
    NetlocText(UNSCOPED, None);
    NetlocReadsBack(UNSCOPED, None);
  }

  lemma BracketedLength(host: string)
    requires ':' in host
    ensures |Netloc(host, None)| == |host| + 2
  {
  }

  /** A bracketed host that is no longer one once encoded: accepted, then refused. */
  lemma LostScopeIsRefusedNext(env: Env)
    requires Encodes(env, SCOPED, UNSCOPED) && env.authorityOk(Netloc(SCOPED, None))
    requires env.bracketOk(SCOPED) && !env.bracketOk(UNSCOPED)
    ensures NormalizeUrl(env, Root(Netloc(SCOPED, None))) == Ok(Root(Netloc(UNSCOPED, None)))
    ensures NormalizeUrl(env, Root(Netloc(UNSCOPED, None))) == Err(BadAuthority)
  {
    ScopedText();
    UnscopedText();
    NetlocText(SCOPED, None);
    BracketedLength(SCOPED);
    ScopedAuthority(env);
    UnscopedIsRefused(env);
    RefusedNext(env, Netloc(SCOPED, None), UNSCOPED, BadAuthority);
  }

  /** A label and as many more of it. */
  function Dotted(part: string, more: nat): string {
    if more == 0 then part else part + (['.'] + Dotted(part, more - 1))
  }

  lemma {:induction false} DottedText(part: string, more: nat)
    requires part != "" && IsUnmarked(part) && IsHostText(part) && '.' !in part && IsTrimmed(part)
    ensures var s := Dotted(part, more);
      && |s| == |part| + more * (|part| + 1) && s[0] == part[0] && s[|s| - 1] == part[|part| - 1]
      && IsUnmarked(s) && IsHostText(s)
  {
    if more > 0 {
      DottedText(part, more - 1);
      assert more * (|part| + 1) == (more - 1) * (|part| + 1) + |part| + 1;
    }
  }

  lemma {:induction false} DottedIsWhole(part: string, more: nat)
    requires part != "" && IsUnmarked(part) && IsHostText(part) && '.' !in part && IsTrimmed(part)
    requires |part| + more * (|part| + 1) <= 253
    ensures IsWhole(Dotted(part, more)) && IsUnmarked(Dotted(part, more)) && IsHostText(Dotted(part, more))
  {
    DottedText(part, more);
  }

  lemma {:induction false} DottedLabels(part: string, more: nat)
    requires '.' !in part && 0 < |part| <= 63
    ensures LabelsOk(Dotted(part, more))
  {
    if more == 0 {
      SplitFree(part, '.');
    } else {
      DottedLabels(part, more - 1);
      SplitAtSeparator(part, Dotted(part, more - 1), '.');
      Regroup(part, ['.'], Dotted(part, more - 1));
    }
  }

  const UMLAUT := "\U{00FC}"
  const ENCODED_UMLAUT := "xn--tda"

  /** Labels short as written and long once encoded. */
  function Umlauts(more: nat): string {
    Dotted(UMLAUT, more)
  }

  function EncodedUmlauts(more: nat): string {
    Dotted(ENCODED_UMLAUT, more)
  }

  lemma UmlautTexts(more: nat)
    requires more <= 126
    ensures IsWhole(Umlauts(more)) && IsUnmarked(Umlauts(more)) && IsHostText(Umlauts(more))
  {
    DottedIsWhole(UMLAUT, more);
  }

  lemma EncodedUmlautTexts(more: nat)
    ensures |EncodedUmlauts(more)| == 7 + 8 * more
    ensures IsUnmarked(EncodedUmlauts(more)) && IsHostText(EncodedUmlauts(more))
    ensures IsTrimmed(EncodedUmlauts(more)) && EncodedUmlauts(more)[|EncodedUmlauts(more)| - 1] != '.'
    ensures LabelsOk(EncodedUmlauts(more)) && UrlQuery.AllAscii(EncodedUmlauts(more))
  {
    DottedText(ENCODED_UMLAUT, more);
    DottedLabels(ENCODED_UMLAUT, more);
    DottedIsAscii(ENCODED_UMLAUT, more);
  }

  lemma {:induction false} DottedIsAscii(part: string, more: nat)
    requires UrlQuery.AllAscii(part)
    ensures UrlQuery.AllAscii(Dotted(part, more))
  {
    if more > 0 { DottedIsAscii(part, more - 1); }
  }

  /** A host longer than 253 characters is refused. */
  lemma LongIsRefused(env: Env, host: string)
    requires PlainOnAscii(env) && UrlQuery.AllAscii(host) && IsUnmarked(host) && |host| > 253
    requires IsTrimmed(host) && host[|host| - 1] != '.'
    ensures Authority(env, host) == Err(BadHost)
  {
    Uncut(host, At(':'));
    StripIsAPart(host);
  }

  /** An encoded host that is too long, of 32 labels or more: accepted, then refused. */
  lemma LongEncodingIsRefusedNext(env: Env, more: nat)
    requires PlainOnAscii(env) && Encodes(env, Umlauts(more), EncodedUmlauts(more)) && 31 <= more <= 126
    ensures NormalizeUrl(env, Root(Umlauts(more))) == Ok(Root(EncodedUmlauts(more)))
    ensures NormalizeUrl(env, Root(EncodedUmlauts(more))) == Err(BadHost)
  {
    UmlautTexts(more);
    EncodedUmlautTexts(more);
    EncodedAuthority(env, Umlauts(more), EncodedUmlauts(more));
    LongIsRefused(env, EncodedUmlauts(more));
    UnmarkedNetloc(EncodedUmlauts(more));
    RefusedNext(env, Umlauts(more), EncodedUmlauts(more), BadHost);
  }

  lemma UnmarkedNetloc(host: string)
    requires IsUnmarked(host)
    ensures Netloc(host, None) == host
  {
    assert host + "" == host;
  }

  // ------------------------------------------------------ one such library

  const FULLWIDTH_SLASH := "a\U{FF0F}b"

  /** What each character is encoded as, when the others are. */
  function NarrowChar(c: char): string {
    if c == '\U{FF0F}' then "/" else if c == '\U{FF3B}' then "[" else if c == '\U{FF3D}' then "]"
    else if c == '\U{00AD}' then "" else if c == '\U{00FC}' then ENCODED_UMLAUT
    else [c]
  }

  function NarrowAll(s: string): string {
    if s == "" then "" else NarrowChar(s[0]) + NarrowAll(s[1..])
  }

  function NarrowLabels(s: string): Option<string> {
    if UrlQuery.AllAscii(NarrowAll(s)) && LabelsOk(NarrowAll(s)) then Some(NarrowAll(s)) else None
  }

  predicate HasNoFullWidthSlash(s: string) {
    '\U{FF0F}' !in s
  }

  /** A library that narrows full-width delimiters, drops soft hyphens and encodes
      umlauts; its check looks out for the slash only. */
  function NarrowingLibrary(codec: UrlQuery.Codec): Env {
    Env(codec, Lower, NarrowLabels, HasNoFullWidthSlash, (s: string) => s == SCOPED)
  }

  /** Text an encoded host may hold. */
  predicate IsPlain(s: string) {
    forall i :: 0 <= i < |s| ==> IsHostChar(s[i]) && LowerChar(s[i]) == s[i]
  }

  lemma {:induction false} NarrowIsPlain(s: string)
    requires IsPlain(s) && HasNoFullWidthSlash(s)
    ensures IsPlain(NarrowAll(s))
  {
    if s != "" { NarrowIsPlain(s[1..]); }
  }

  lemma {:induction false} NarrowKeepsAscii(s: string)
    requires UrlQuery.AllAscii(s)
    ensures NarrowAll(s) == s && HasNoFullWidthSlash(s)
  {
    if s != "" { NarrowKeepsAscii(s[1..]); }
  }

  lemma NarrowHostIsEncoded(host: string)
    requires IsHostText(host) && HasNoFullWidthSlash(host)
    ensures var encoded := NarrowLabels(Lower(StripDots(Strip(host)))); encoded.Some? ==> IsEncoded(encoded.value)
  {
    var inner := StripDots(Strip(host));
    forall i | 0 <= i < |inner|
      ensures IsHostChar(inner[i]) && inner[i] != '\U{FF0F}'
    {
      StripIsAPart(host);
      StripDotsIsPrefix(Strip(host));
      assert inner[i] == Strip(host)[i] && Strip(host)[i] in host;
    }
    NarrowIsPlain(Lower(inner));
  }

  lemma NarrowEncodesChecked(codec: UrlQuery.Codec)
    ensures EncodesChecked(NarrowingLibrary(codec))
  {
    forall netloc | HasNoFullWidthSlash(netloc) && IsHostText(netloc)
      ensures var encoded := NarrowLabels(Lower(StripDots(Strip(HostAndPort(netloc).0))));
        encoded.Some? ==> IsEncoded(encoded.value)
    {
      HostIsAPart(netloc);
      NarrowHostIsEncoded(HostAndPort(netloc).0);
    }
  }

  lemma {:induction false} NarrowCons(c: char, s: string)
    ensures NarrowAll([c] + s) == NarrowChar(c) + NarrowAll(s)
  {
    assert ([c] + s)[1..] == s;
  }

  lemma {:induction false} NarrowConcat(a: string, b: string)
    ensures NarrowAll(a + b) == NarrowAll(a) + NarrowAll(b)
  {
    if a == "" {
      assert a + b == b;
    } else {
      NarrowConcat(a[1..], b);
      NarrowCons(a[0], a[1..] + b);
      HeadAndTail(a);
      Regroup([a[0]], a[1..], b);
      Regroup(NarrowChar(a[0]), NarrowAll(a[1..]), NarrowAll(b));
    }
  }

  lemma NarrowOne(c: char)
    ensures NarrowAll([c]) == NarrowChar(c)
  {
    assert [c][1..] == "";
  }

  lemma {:induction false} NarrowUmlauts(more: nat)
    ensures NarrowAll(Dotted(UMLAUT, more)) == Dotted(ENCODED_UMLAUT, more)
  {
    NarrowOne(UMLAUT[0]);
    assert UMLAUT == [UMLAUT[0]];
    if more > 0 {
      NarrowUmlauts(more - 1);
      NarrowOne('.');
      NarrowConcat(['.'], Dotted(UMLAUT, more - 1));
      NarrowConcat(UMLAUT, ['.'] + Dotted(UMLAUT, more - 1));
    }
  }

  /** A plain text with one character that is encoded. */
  lemma {:induction false} NarrowTail(front: string, c: char)
    requires UrlQuery.AllAscii(front)
    ensures NarrowAll(front + [c]) == front + NarrowChar(c)
  {
    NarrowKeepsAscii(front);
    NarrowConcat(front, [c]);
    NarrowOne(c);
  }

  lemma {:induction false} EncodesWhatNarrows(codec: UrlQuery.Codec, written: string, encoded: string)
    requires NarrowAll(written) == encoded && UrlQuery.AllAscii(encoded) && LabelsOk(encoded)
    requires IsPlain(written) && HasNoFullWidthSlash(written)
    ensures Encodes(NarrowingLibrary(codec), written, encoded)
  {
    assert Lower(written) == written;
  }

  lemma NarrowedBrackets(codec: UrlQuery.Codec)
    ensures Encodes(NarrowingLibrary(codec), CLOSING, "a]") && Encodes(NarrowingLibrary(codec), OPENING, "a[")
  {
    Brackets();
    NarrowTail("a", '\U{FF3D}');
    NarrowTail("a", '\U{FF3B}');
    assert CLOSING == "a" + ['\U{FF3D}'] && "a" + "]" == "a]";
    assert OPENING == "a" + ['\U{FF3B}'] && "a" + "[" == "a[";
    EncodesWhatNarrows(codec, CLOSING, "a]");
    EncodesWhatNarrows(codec, OPENING, "a[");
  }

  /** A plain text whose last character is encoded as nothing. */
  lemma EncodesWithoutLast(codec: UrlQuery.Codec, front: string, c: char)
    requires UrlQuery.AllAscii(front) && NarrowChar(c) == "" && LabelsOk(front)
    requires IsPlain(front + [c]) && HasNoFullWidthSlash(front + [c])
    ensures Encodes(NarrowingLibrary(codec), front + [c], front)
  {
    NarrowTail(front, c);
    assert front + "" == front;
    EncodesWhatNarrows(codec, front + [c], front);
  }

  lemma ScopeIsPlain()
    ensures IsPlain(SCOPED) && HasNoFullWidthSlash(SCOPED) && UrlQuery.AllAscii(UNSCOPED)
    ensures SCOPED == UNSCOPED + ['\U{00AD}']
  {
  }

  lemma NarrowedScope(codec: UrlQuery.Codec)
    ensures Encodes(NarrowingLibrary(codec), SCOPED, UNSCOPED)
  {
    UnscopedText();
    ScopeIsPlain();
    EncodesWithoutLast(codec, UNSCOPED, '\U{00AD}');
  }

  lemma ScopeIsChecked(codec: UrlQuery.Codec)
    ensures var env := NarrowingLibrary(codec);
      env.authorityOk(Netloc(SCOPED, None)) && env.bracketOk(SCOPED) && !env.bracketOk(UNSCOPED)
  {
    ScopedText();
    assert HasNoFullWidthSlash(SCOPED) && HasNoFullWidthSlash(Netloc(SCOPED, None));
    assert |SCOPED| != |UNSCOPED|;
  }

  lemma {:induction false} DottedIsLower(part: string, more: nat)
    requires IsPlain(part) && HasNoFullWidthSlash(part)
    ensures IsPlain(Dotted(part, more)) && HasNoFullWidthSlash(Dotted(part, more))
  {
    if more > 0 { DottedIsLower(part, more - 1); }
  }

  lemma NarrowedUmlauts(codec: UrlQuery.Codec, more: nat)
    ensures Encodes(NarrowingLibrary(codec), Umlauts(more), EncodedUmlauts(more))
  {
    NarrowUmlauts(more);
    DottedIsLower(UMLAUT, more);
    EncodedUmlautTexts(more);
    EncodesWhatNarrows(codec, Umlauts(more), EncodedUmlauts(more));
  }

  lemma NarrowedSlash()
    ensures NarrowLabels(FULLWIDTH_SLASH) == Some("a/b") && !HasNoFullWidthSlash(FULLWIDTH_SLASH)
  {
    NarrowTail("a", '\U{FF0F}');
    NarrowConcat("a" + ['\U{FF0F}'], "b");
    NarrowKeepsAscii("b");
    assert FULLWIDTH_SLASH == ("a" + ['\U{FF0F}']) + "b" && FULLWIDTH_SLASH[1] == '\U{FF0F}';
    assert ("a" + "/") + "b" == "a/b";
    SplitFree("a/b", '.');
  }

  lemma NarrowIsPlainOnAscii(codec: UrlQuery.Codec)
    ensures PlainOnAscii(NarrowingLibrary(codec))
  {
    assert forall s :: UrlQuery.AllAscii(s) ==> NarrowAll(s) == s && HasNoFullWidthSlash(s) by {
      forall s | UrlQuery.AllAscii(s)
        ensures NarrowAll(s) == s && HasNoFullWidthSlash(s)
      {
        NarrowKeepsAscii(s);
      }
    }
  }

  /** The assumptions can be met together, by a library with every way of encoding
      that the examples need. */
  lemma LawfulLibrary() returns (env: Env)
    ensures Lawful(env)
    ensures Encodes(env, CLOSING, "a]") && Encodes(env, OPENING, "a[")
    ensures forall more: nat :: Encodes(env, Umlauts(more), EncodedUmlauts(more))
    ensures Encodes(env, SCOPED, UNSCOPED) && env.authorityOk(Netloc(SCOPED, None))
    ensures env.bracketOk(SCOPED) && !env.bracketOk(UNSCOPED)
    ensures env.idna(FULLWIDTH_SLASH) == Some("a/b") && !env.authorityOk(FULLWIDTH_SLASH)
  {
    var codec := UrlQuery.LawfulCodec();
    env := NarrowingLibrary(codec);
    assert PlainOnAscii(env) by { NarrowIsPlainOnAscii(codec); }
    assert EncodesChecked(env) by { NarrowEncodesChecked(codec); }
    NarrowedBrackets(codec);
    NarrowedScope(codec);
    ScopeIsChecked(codec);
    forall more: nat
      ensures Encodes(env, Umlauts(more), EncodedUmlauts(more))
    {
      NarrowedUmlauts(codec, more);
    }
    NarrowedSlash();
  }
}
