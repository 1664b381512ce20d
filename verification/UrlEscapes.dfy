/** Percent-escapes in URL paths: which octets are decoded, which stay escaped,
    and when two paths have the same normal form (sections 2.1, 2.3, 6.2.2.1 and
    6.2.2.2 of RFC 3986; audit_engine/urls.py:43-44, 66-79). */
module UrlEscapes {
  import opened Outcomes

  /** A hexadecimal digit in either case. */
  predicate IsHex(c: char) {
    '0' <= c <= '9' || 'A' <= c <= 'F' || 'a' <= c <= 'f'
  }

  function HexValue(c: char): (v: nat)
    requires IsHex(c)
    ensures v < 16
  {
    if '0' <= c <= '9' then c as int - '0' as int
    else if 'A' <= c <= 'F' then c as int - 'A' as int + 10
    else c as int - 'a' as int + 10
  }

  /** The upper-case digit. */
  function HexDigit(v: nat): (c: char)
    requires v < 16
    ensures IsHex(c) && !('a' <= c <= 'f') && HexValue(c) == v
  {
    if v < 10 then ('0' as int + v) as char else ('A' as int + v - 10) as char
  }

  lemma UpperDigitIsItsValue(c: char)
    requires IsHex(c) && !('a' <= c <= 'f')
    ensures HexDigit(HexValue(c)) == c
  {
  }

  type Octet = n: nat | n < 256

  /** The unreserved characters of section 2.3 of RFC 3986. */
  predicate IsUnreserved(n: nat) {
    || 'A' as nat <= n <= 'Z' as nat || 'a' as nat <= n <= 'z' as nat || '0' as nat <= n <= '9' as nat
    || n in {'-' as nat, '.' as nat, '_' as nat, '~' as nat}
  }

  /** Octets that no path may carry in escaped form: controls, DEL, backslash. */
  predicate IsProhibited(n: nat) {
    n < 32 || n == 127 || n == 92
  }

  // ---------------------------------------------------------------- tokens

  /** What a path is made of: plain characters and escaped octets. */
  datatype Token = Plain(c: char) | Escaped(octet: Octet)

  /** Every percent sign starts an escape. */
  predicate WellEscaped(path: string) {
    forall i :: 0 <= i < |path| && path[i] == '%' ==> i + 2 < |path| && IsHex(path[i + 1]) && IsHex(path[i + 2])
  }

  function OctetAt(path: string): Octet
    requires |path| >= 3 && IsHex(path[1]) && IsHex(path[2])
  {
    16 * HexValue(path[1]) + HexValue(path[2])
  }

  function Tokens(path: string): seq<Token>
    requires WellEscaped(path)
  {
    if path == "" then []
    else if path[0] == '%' then [Escaped(OctetAt(path))] + Tokens(path[3..])
    else [Plain(path[0])] + Tokens(path[1..])
  }

  function EscapeText(octet: Octet): string {
    ['%', HexDigit(octet / 16), HexDigit(octet % 16)]
  }

  function Spell(token: Token): string {
    match token
    case Plain(c) => [c]
    case Escaped(octet) => EscapeText(octet)
  }

  function Render(tokens: seq<Token>): string {
    if tokens == [] then "" else Spell(tokens[0]) + Render(tokens[1..])
  }

  /** An unreserved octet needs no escape. */
  function Canonical(token: Token): Token {
    match token
    case Plain(c) => token
    case Escaped(octet) => if IsUnreserved(octet) then Plain(octet as char) else token
  }

  function CanonicalAll(tokens: seq<Token>): (canonical: seq<Token>)
    ensures |canonical| == |tokens| && forall i :: 0 <= i < |tokens| ==> canonical[i] == Canonical(tokens[i])
  {
    seq(|tokens|, i requires 0 <= i < |tokens| => Canonical(tokens[i]))
  }

  // -------------------------------------------------------- the normaliser

  datatype EscapeError = InvalidEscape | ProhibitedOctet

  predicate HasProhibited(tokens: seq<Token>) {
    exists i :: 0 <= i < |tokens| && tokens[i].Escaped? && IsProhibited(tokens[i].octet)
  }

  /** The substitution of every escape, left to right. */
  function Substitute(path: string): string
    requires WellEscaped(path)
  {
    if path == "" then ""
    else if path[0] == '%' then
      var octet := OctetAt(path);
      (if IsUnreserved(octet) then [octet as char] else EscapeText(octet)) + Substitute(path[3..])
    else [path[0]] + Substitute(path[1..])
  }

  function NormalizeEscapes(path: string): Result<string, EscapeError> {
    if !WellEscaped(path) then Err(InvalidEscape)
    else if HasProhibited(Tokens(path)) then Err(ProhibitedOctet)
    else Ok(Substitute(path))
  }

  lemma RenderCons(token: Token, rest: seq<Token>)
    ensures Render(CanonicalAll([token] + rest)) == Spell(Canonical(token)) + Render(CanonicalAll(rest))
  {
    assert CanonicalAll([token] + rest)[1..] == CanonicalAll(rest);
  }

  /** The normaliser writes out the canonical tokens. */
  lemma {:induction false} SubstituteRendersCanonical(path: string)
    requires WellEscaped(path)
    ensures Substitute(path) == Render(CanonicalAll(Tokens(path)))
  {
    if path == "" {
    } else if path[0] == '%' {
      SubstituteRendersCanonical(path[3..]);
      RenderCons(Escaped(OctetAt(path)), Tokens(path[3..]));
    } else {
      SubstituteRendersCanonical(path[1..]);
      RenderCons(Plain(path[0]), Tokens(path[1..]));
    }
  }

  predicate NoPlainPercent(tokens: seq<Token>) {
    forall i :: 0 <= i < |tokens| ==> tokens[i] != Plain('%')
  }

  lemma {:induction false} PrependPlain(c: char, tail: string)
    requires c != '%' && WellEscaped(tail)
    ensures WellEscaped([c] + tail) && Tokens([c] + tail) == [Plain(c)] + Tokens(tail)
  {
    var text := [c] + tail;
    forall i | 0 <= i < |text| && text[i] == '%'
      ensures i + 2 < |text| && IsHex(text[i + 1]) && IsHex(text[i + 2])
    {
      assert tail[i - 1] == '%';
    }
    assert text[1..] == tail;
  }

  lemma {:induction false} PrependEscape(octet: Octet, tail: string)
    requires WellEscaped(tail)
    ensures WellEscaped(EscapeText(octet) + tail) && Tokens(EscapeText(octet) + tail) == [Escaped(octet)] + Tokens(tail)
  {
    var text := EscapeText(octet) + tail;
    forall i | 0 <= i < |text| && text[i] == '%'
      ensures i + 2 < |text| && IsHex(text[i + 1]) && IsHex(text[i + 2])
    {
      if i >= 3 { assert tail[i - 3] == '%'; }
    }
    assert text[3..] == tail;
    assert OctetAt(text) == octet;
  }

  /** Writing out tokens and reading them back gives the same tokens. */
  lemma {:induction false} TokensOfRender(tokens: seq<Token>)
    requires NoPlainPercent(tokens)
    ensures WellEscaped(Render(tokens)) && Tokens(Render(tokens)) == tokens
  {
    if tokens != [] {
      TokensOfRender(tokens[1..]);
      match tokens[0]
      case Plain(c) => PrependPlain(c, Render(tokens[1..]));
      case Escaped(octet) => PrependEscape(octet, Render(tokens[1..]));
    }
  }

  lemma {:induction false} TokensHaveNoPlainPercent(path: string)
    requires WellEscaped(path)
    ensures NoPlainPercent(Tokens(path)) && NoPlainPercent(CanonicalAll(Tokens(path)))
  {
    if path != "" {
      TokensHaveNoPlainPercent(if path[0] == '%' then path[3..] else path[1..]);
    }
  }

  // ------------------------------------------------- what normal form means

  /** The octet a token stands for (a code point above 255 for itself). */
  function OctetOf(token: Token): nat {
    match token
    case Plain(c) => c as nat
    case Escaped(octet) => octet
  }

  /** Two tokens mean the same: same octet, and the same spelling unless the
      octet is unreserved (section 6.2.2.2 of RFC 3986).  Hex case is not part
      of a token at all. */
  predicate SameMeaning(t: Token, u: Token) {
    OctetOf(t) == OctetOf(u) && (IsUnreserved(OctetOf(t)) || t.Escaped? == u.Escaped?)
  }

  predicate Equivalent(p: seq<Token>, q: seq<Token>) {
    |p| == |q| && forall i :: 0 <= i < |p| ==> SameMeaning(p[i], q[i])
  }

  lemma CanonicalIffSameMeaning(t: Token, u: Token)
    ensures Canonical(t) == Canonical(u) <==> SameMeaning(t, u)
  {
    if SameMeaning(t, u) {
      match (t, u) {
        case (Plain(c), Plain(d)) => assert c == d;
        case (Escaped(m), Escaped(n)) =>
        case (Plain(c), Escaped(n)) => assert c == n as char;
        case (Escaped(m), Plain(d)) => assert d == m as char;
      }
    }
  }

  lemma CanonicalAllIffEquivalent(s: seq<Token>, t: seq<Token>)
    ensures CanonicalAll(s) == CanonicalAll(t) <==> Equivalent(s, t)
  {
    if |s| == |t| {
      forall i | 0 <= i < |s|
        ensures CanonicalAll(s)[i] == CanonicalAll(t)[i] <==> SameMeaning(s[i], t[i])
      {
        CanonicalIffSameMeaning(s[i], t[i]);
      }
    } else {
      assert |CanonicalAll(s)| != |CanonicalAll(t)|;
    }
  }

  /** Two paths have the same normal form exactly when they differ only in hex
      case or in the escaping of unreserved characters. */
  lemma {:induction false} SameNormalFormIffEquivalent(p: string, q: string)
    requires WellEscaped(p) && WellEscaped(q)
    ensures Substitute(p) == Substitute(q) <==> Equivalent(Tokens(p), Tokens(q))
  {
    SubstituteRendersCanonical(p);
    SubstituteRendersCanonical(q);
    TokensHaveNoPlainPercent(p);
    TokensHaveNoPlainPercent(q);
    TokensOfRender(CanonicalAll(Tokens(p)));
    TokensOfRender(CanonicalAll(Tokens(q)));
    CanonicalAllIffEquivalent(Tokens(p), Tokens(q));
  }

  /** The percent-decoded octets of a path. */
  function Octets(tokens: seq<Token>): (octets: seq<nat>)
    ensures |octets| == |tokens|
    ensures forall i :: 0 <= i < |tokens| ==> octets[i] == OctetOf(tokens[i])
  {
    seq(|tokens|, i requires 0 <= i < |tokens| => OctetOf(tokens[i]))
  }

  /** How many real separators a path has; an escaped slash is not one. */
  function Separators(tokens: seq<Token>): nat {
    if tokens == [] then 0 else (if tokens[0] == Plain('/') then 1 else 0) + Separators(tokens[1..])
  }

  lemma {:induction false} SeparatorsAre(tokens: seq<Token>)
    ensures Separators(tokens) == multiset(tokens)[Plain('/')]
  {
    if tokens != [] {
      SeparatorsAre(tokens[1..]);
      assert tokens == [tokens[0]] + tokens[1..];
    }
  }

  lemma {:induction false} CanonicalKeepsSeparators(tokens: seq<Token>)
    ensures Separators(CanonicalAll(tokens)) == Separators(tokens)
  {
    if tokens != [] {
      CanonicalKeepsSeparators(tokens[1..]);
      assert CanonicalAll(tokens)[1..] == CanonicalAll(tokens[1..]);
    }
  }

  /** Upper-case escapes only, none of an unreserved or prohibited octet. */
  predicate IsNormal(path: string) {
    && WellEscaped(path)
    && (forall i :: 0 <= i < |Tokens(path)| && Tokens(path)[i].Escaped? ==>
          !IsUnreserved(Tokens(path)[i].octet) && !IsProhibited(Tokens(path)[i].octet))
    && Render(Tokens(path)) == path
  }

  /** An accepted path keeps its decoded octets and its separators, and leaves
      only upper-case escapes of octets that are not unreserved. */
  lemma {:induction false} NormalFormKeepsMeaning(path: string)
    requires NormalizeEscapes(path).Ok?
    ensures var normal := NormalizeEscapes(path).value;
      && IsNormal(normal)
      && Octets(Tokens(normal)) == Octets(Tokens(path))
      && Separators(Tokens(normal)) == Separators(Tokens(path))
  {
    SubstituteRendersCanonical(path);
    TokensHaveNoPlainPercent(path);
    TokensOfRender(CanonicalAll(Tokens(path)));
    CanonicalKeepsSeparators(Tokens(path));
  }

  /** A normal path is its own normal form. */
  lemma NormalIsFixed(path: string)
    requires IsNormal(path)
    ensures NormalizeEscapes(path) == Ok(path)
  {
    SubstituteRendersCanonical(path);
    assert CanonicalAll(Tokens(path)) == Tokens(path);
  }

  // ------------------------------------------------- what is accepted, spelled out

  lemma UpperLettersAre(c: char)
    ensures 'A' <= c <= 'Z' <==> c in "ABCDEFGHIJKLMNOPQRSTUVWXYZ"
  {
  }

  lemma LowerLettersAre(c: char)
    ensures 'a' <= c <= 'z' <==> c in "abcdefghijklmnopqrstuvwxyz"
  {
  }

  lemma UnreservedAre(c: char)
    ensures IsUnreserved(c as nat) <==>
      || c in "ABCDEFGHIJKLMNOPQRSTUVWXYZ" || c in "abcdefghijklmnopqrstuvwxyz"
      || c in "0123456789-._~"
  {
    UpperLettersAre(c);
    LowerLettersAre(c);
  }

  lemma HexDigitsAre(c: char)
    ensures IsHex(c) <==> c in "0123456789ABCDEFabcdef"
    ensures IsHex(c) ==> c in {"0123456789ABCDEF"[HexValue(c)], "0123456789abcdef"[HexValue(c)]}
  {
  }

  /** Every percent sign starts an escape of two hexadecimal digits. */
  ghost predicate EscapesAreWhole(path: string) {
    forall i :: 0 <= i < |path| && path[i] == '%' ==>
      && i + 2 < |path| && path[i + 1] in "0123456789ABCDEFabcdef" && path[i + 2] in "0123456789ABCDEFabcdef"
  }

  lemma WellEscapedIff(path: string)
    ensures WellEscaped(path) <==> EscapesAreWhole(path)
  {
    forall c: char
      ensures IsHex(c) <==> c in "0123456789ABCDEFabcdef"
    {
      HexDigitsAre(c);
    }
  }

  /** An escape stands for a control character, DEL or a backslash. */
  ghost predicate EscapesForbidden(path: string, i: nat)
    requires i + 2 < |path| && IsHex(path[i + 1]) && IsHex(path[i + 2])
  {
    var octet := HexValue(path[i + 1]) * 16 + HexValue(path[i + 2]);
    octet <= 31 || octet == 127 || octet == 92
  }

  ghost predicate HasForbidden(path: string)
    requires WellEscaped(path)
  {
    exists i :: 0 <= i < |path| && path[i] == '%' && EscapesForbidden(path, i)
  }

  lemma HasProhibitedCons(token: Token, rest: seq<Token>)
    ensures HasProhibited([token] + rest) <==> (token.Escaped? && IsProhibited(token.octet)) || HasProhibited(rest)
  {
    var all := [token] + rest;
    assert all[0] == token;
    if HasProhibited(rest) {
      var i :| 0 <= i < |rest| && rest[i].Escaped? && IsProhibited(rest[i].octet);
      assert all[i + 1] == rest[i];
    }
  }

  lemma ForbiddenAfterEscape(path: string)
    requires WellEscaped(path) && path != "" && path[0] == '%'
    ensures WellEscaped(path[3..])
    ensures HasForbidden(path) <==> EscapesForbidden(path, 0) || HasForbidden(path[3..])
  {
    if HasForbidden(path[3..]) {
      var i :| 0 <= i < |path[3..]| && path[3..][i] == '%' && EscapesForbidden(path[3..], i);
      assert path[i + 3] == '%' && EscapesForbidden(path, i + 3);
    }
    if i :| 0 < i < |path| && path[i] == '%' && EscapesForbidden(path, i) {
      assert path[3..][i - 3] == '%' && EscapesForbidden(path[3..], i - 3);
    }
  }

  lemma ForbiddenAfterPlain(path: string)
    requires WellEscaped(path) && path != "" && path[0] != '%'
    ensures WellEscaped(path[1..])
    ensures HasForbidden(path) <==> HasForbidden(path[1..])
  {
    if HasForbidden(path[1..]) {
      var i :| 0 <= i < |path[1..]| && path[1..][i] == '%' && EscapesForbidden(path[1..], i);
      assert path[i + 1] == '%' && EscapesForbidden(path, i + 1);
    }
    if i :| 0 < i < |path| && path[i] == '%' && EscapesForbidden(path, i) {
      assert path[1..][i - 1] == '%' && EscapesForbidden(path[1..], i - 1);
    }
  }

  lemma {:induction false} ProhibitedIffForbidden(path: string)
    requires WellEscaped(path)
    ensures HasProhibited(Tokens(path)) <==> HasForbidden(path)
  {
    if path == "" {
    } else if path[0] == '%' {
      ForbiddenAfterEscape(path);
      ProhibitedIffForbidden(path[3..]);
      HasProhibitedCons(Escaped(OctetAt(path)), Tokens(path[3..]));
    } else {
      ForbiddenAfterPlain(path);
      ProhibitedIffForbidden(path[1..]);
      HasProhibitedCons(Plain(path[0]), Tokens(path[1..]));
    }
  }

  /** Escapes are accepted exactly if all are whole and none stands for a control
      character, DEL or a backslash. */
  lemma EscapesAcceptedIff(path: string)
    ensures NormalizeEscapes(path).Ok? <==> EscapesAreWhole(path) && WellEscaped(path) && !HasForbidden(path)
  {
    WellEscapedIff(path);
    if WellEscaped(path) { ProhibitedIffForbidden(path); }
  }
}
