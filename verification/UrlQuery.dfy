/** Query cleaning (audit_engine/urls.py:133-140): the query is parsed into
    items, tracking parameters are dropped, the rest is sorted stably, and the
    items are encoded again. */
module UrlQuery {
  import opened Outcomes
  import opened Splitting
  import opened Text
  import opened UrlEscapes
  import UrlPath

  /** A parameter's name and value. */
  type Item = (string, string)

  /** The text codecs of the runtime: UTF-8 decoding that replaces malformed
      bytes, and case folding. */
  datatype Codec = Codec(decodeUtf8: seq<Octet> -> string, casefold: string -> string)

  function EncodeUtf8(s: string): seq<Octet> {
    if s == "" then [] else UrlPath.Utf8(s[0]) + EncodeUtf8(s[1..])
  }

  /** Decoding undoes encoding. */
  ghost predicate Lawful(codec: Codec) {
    forall s :: codec.decodeUtf8(EncodeUtf8(s)) == s
  }

  /** What an octet adds above its marker bits. */
  function Bits(octet: Octet, marker: int): int {
    octet as int - marker
  }

  function CodePoint(u: seq<Octet>): int
    requires 1 <= |u| <= 4
  {
    if |u| == 1 then u[0]
    else if |u| == 2 then Bits(u[0], 0xC0) * 0x40 + Bits(u[1], 0x80)
    else if |u| == 3 then (Bits(u[0], 0xE0) * 0x40 + Bits(u[1], 0x80)) * 0x40 + Bits(u[2], 0x80)
    else ((Bits(u[0], 0xF0) * 0x40 + Bits(u[1], 0x80)) * 0x40 + Bits(u[2], 0x80)) * 0x40 + Bits(u[3], 0x80)
  }

  lemma QuotientsChain(n: nat)
    ensures n / 0x40 / 0x40 == n / 0x1000 && n / 0x1000 / 0x40 == n / 0x40000
  {
  }

  lemma CodePointOfUtf8(c: char)
    ensures 1 <= |UrlPath.Utf8(c)| <= 4 && CodePoint(UrlPath.Utf8(c)) == c as int
  {
    QuotientsChain(c as nat);
  }

  /** The number of octets of a character, told by the first one. */
  function LengthByLead(octet: Octet): nat {
    if octet < 0x80 then 1 else if octet < 0xE0 then 2 else if octet < 0xF0 then 3 else 4
  }

  lemma LeadGivesLength(c: char)
    ensures |UrlPath.Utf8(c)| == LengthByLead(UrlPath.Utf8(c)[0])
  {
  }

  /** So the front of an encoded text determines its first character. */
  lemma Utf8IsPrefixFree(c: char, d: char, a: seq<Octet>, b: seq<Octet>)
    requires UrlPath.Utf8(c) + a == UrlPath.Utf8(d) + b
    ensures c == d && a == b
  {
    LeadGivesLength(c);
    LeadGivesLength(d);
    CodePointOfUtf8(c);
    CodePointOfUtf8(d);
    SameLengthFronts(UrlPath.Utf8(c), UrlPath.Utf8(d), a, b);
  }

  lemma SameLengthFronts(u: seq<Octet>, v: seq<Octet>, a: seq<Octet>, b: seq<Octet>)
    requires u + a == v + b && u != [] && v != []
    ensures u[0] == v[0] && (|u| == |v| ==> u == v && a == b)
  {
    assert u[0] == (u + a)[0] && v[0] == (v + b)[0];
    if |u| == |v| {
      assert u == (u + a)[..|u|] && v == (v + b)[..|v|];
      assert a == (u + a)[|u|..] && b == (v + b)[|v|..];
    }
  }

  lemma {:induction false} EncodingIsInjective(s: string, t: string)
    requires EncodeUtf8(s) == EncodeUtf8(t)
    ensures s == t
  {
    if s != "" && t != "" {
      Utf8IsPrefixFree(s[0], t[0], EncodeUtf8(s[1..]), EncodeUtf8(t[1..]));
      EncodingIsInjective(s[1..], t[1..]);
      assert s == [s[0]] + s[1..] && t == [t[0]] + t[1..];
    }
  }

  ghost function DecodeUtf8(octets: seq<Octet>): string {
    if exists s :: EncodeUtf8(s) == octets then
      var s :| EncodeUtf8(s) == octets;
      s
    else ""
  }

  /** Such a codec exists: UTF-8 is injective. */
  lemma LawfulCodec() returns (codec: Codec)
    ensures Lawful(codec)
  {
    codec := Codec(octets => DecodeUtf8(octets), (s: string) => s);
    forall s
      ensures codec.decodeUtf8(EncodeUtf8(s)) == s
    {
      EncodingIsInjective(DecodeUtf8(EncodeUtf8(s)), s);
    }
  }

  // -------------------------------------------------------------- encoding

  /** `quote_plus`: unreserved characters stay, a space becomes a plus, anything
      else is escaped octet by octet. */
  function PlusChar(c: char): string {
    if c == ' ' then "+"
    else if IsUnreserved(c as nat) then [c]
    else UrlPath.EscapeOctets(UrlPath.Utf8(c))
  }

  function PlusQuote(s: string): string {
    if s == "" then "" else PlusChar(s[0]) + PlusQuote(s[1..])
  }

  function EncodeItem(item: Item): string {
    PlusQuote(item.0) + "=" + PlusQuote(item.1)
  }

  function EncodeItems(items: seq<Item>): (parts: seq<string>)
    ensures |parts| == |items| && forall i :: 0 <= i < |items| ==> parts[i] == EncodeItem(items[i])
  {
    seq(|items|, i requires 0 <= i < |items| => EncodeItem(items[i]))
  }

  /** `urlencode`. */
  function Encode(items: seq<Item>): string {
    Join(EncodeItems(items), '&')
  }

  // --------------------------------------------------------------- parsing

  predicate IsAscii(c: char) { c as nat < 128 }

  predicate AllAscii(s: string) {
    forall i :: 0 <= i < |s| ==> IsAscii(s[i])
  }

  /** The octets an ASCII text stands for; a percent sign without two hex digits
      stands for itself. */
  function UnquoteOctets(s: string): seq<Octet>
    requires AllAscii(s)
  {
    if s == "" then []
    else if s[0] == '%' && |s| >= 3 && IsHex(s[1]) && IsHex(s[2]) then [OctetAt(s)] + UnquoteOctets(s[3..])
    else
      var octet: Octet := s[0] as nat;
      [octet] + UnquoteOctets(s[1..])
  }

  /** The length of the ASCII run at the front. */
  function AsciiRun(s: string): (n: nat)
    ensures n <= |s| && AllAscii(s[..n]) && (n < |s| ==> !IsAscii(s[n]))
  {
    if s == "" || !IsAscii(s[0]) then 0
    else
      var n := AsciiRun(s[1..]);
      assert s[..n + 1] == [s[0]] + s[1..][..n];
      1 + n
  }

  /** `unquote`: each ASCII run is decoded, other characters stay. */
  function Unquote(codec: Codec, s: string): string
    decreases |s|
  {
    if s == "" then ""
    else
      var n := AsciiRun(s);
      if n == 0 then [s[0]] + Unquote(codec, s[1..])
      else codec.decodeUtf8(UnquoteOctets(s[..n])) + Unquote(codec, s[n..])
  }

  function SpacesForPluses(s: string): (t: string)
    ensures |t| == |s| && forall i :: 0 <= i < |s| ==> t[i] == (if s[i] == '+' then ' ' else s[i])
  {
    seq(|s|, i requires 0 <= i < |s| => if s[i] == '+' then ' ' else s[i])
  }

  /** The name and the value of one piece, split at the first equals sign; a
      piece without one has an empty value. */
  function Divide(piece: string): (string, string) {
    var parts := SplitOn(piece, '=');
    (parts[0], Join(parts[1..], '='))
  }

  function ParsePiece(codec: Codec, piece: string): Item {
    var (name, value) := Divide(piece);
    (Unquote(codec, SpacesForPluses(name)), Unquote(codec, SpacesForPluses(value)))
  }

  /** Empty pieces between ampersands are skipped. */
  function ParsePieces(codec: Codec, pieces: seq<string>): seq<Item> {
    if pieces == [] then []
    else (if pieces[0] == "" then [] else [ParsePiece(codec, pieces[0])]) + ParsePieces(codec, pieces[1..])
  }

  /** `parse_qsl` with blank values kept. */
  function Parse(codec: Codec, query: string): seq<Item> {
    ParsePieces(codec, SplitOn(query, '&'))
  }

  // ------------------------------------------- parsing undoes encoding

  predicate IsPlusSafe(c: char) {
    IsUnreserved(c as nat) || c == '+' || c == '%'
  }

  lemma {:induction false} EscapesArePlusSafe(octets: seq<Octet>)
    ensures forall c :: c in UrlPath.EscapeOctets(octets) ==> IsPlusSafe(c) && c != '+'
  {
    if octets != [] { EscapesArePlusSafe(octets[1..]); }
  }

  lemma {:induction false} PlusQuoteIsSafe(s: string)
    ensures forall c :: c in PlusQuote(s) ==> IsPlusSafe(c)
  {
    if s != "" {
      PlusQuoteIsSafe(s[1..]);
      EscapesArePlusSafe(UrlPath.Utf8(s[0]));
    }
  }

  lemma {:induction false} UnquoteOneEscape(octet: Octet, tail: string)
    requires AllAscii(tail)
    ensures AllAscii(EscapeText(octet) + tail)
    ensures UnquoteOctets(EscapeText(octet) + tail) == [octet] + UnquoteOctets(tail)
  {
    var text := EscapeText(octet) + tail;
    assert forall i :: 0 <= i < 3 ==> IsAscii(EscapeText(octet)[i]);
    assert text[3..] == tail && OctetAt(text) == octet;
  }

  lemma {:induction false} UnquoteEscapes(octets: seq<Octet>, rest: string)
    requires AllAscii(rest)
    ensures AllAscii(UrlPath.EscapeOctets(octets) + rest)
    ensures UnquoteOctets(UrlPath.EscapeOctets(octets) + rest) == octets + UnquoteOctets(rest)
  {
    if octets == [] {
      assert UrlPath.EscapeOctets(octets) + rest == rest;
    } else {
      UnquoteEscapes(octets[1..], rest);
      var tail := UrlPath.EscapeOctets(octets[1..]) + rest;
      UnquoteOneEscape(octets[0], tail);
      Regroup(EscapeText(octets[0]), UrlPath.EscapeOctets(octets[1..]), rest);
      Regroup([octets[0]], octets[1..], UnquoteOctets(rest));
      assert [octets[0]] + octets[1..] == octets;
    }
  }

  lemma {:induction false} UnquoteOnePlain(c: char, tail: string)
    requires AllAscii(tail) && IsAscii(c) && c != '%'
    ensures AllAscii([c] + tail) && UnquoteOctets([c] + tail) == [c as nat] + UnquoteOctets(tail)
  {
    assert ([c] + tail)[1..] == tail;
  }

  /** What one character's quotation reads back as. */
  lemma {:induction false} UnquoteOneChar(c: char, tail: string)
    requires AllAscii(tail)
    ensures AllAscii(SpacesForPluses(PlusChar(c)) + tail)
    ensures UnquoteOctets(SpacesForPluses(PlusChar(c)) + tail) == UrlPath.Utf8(c) + UnquoteOctets(tail)
  {
    var head := SpacesForPluses(PlusChar(c));
    if c == ' ' || IsUnreserved(c as nat) {
      assert head == [c];
      UnquoteOnePlain(c, tail);
    } else {
      EscapesArePlusSafe(UrlPath.Utf8(c));
      assert head == UrlPath.EscapeOctets(UrlPath.Utf8(c));
      UnquoteEscapes(UrlPath.Utf8(c), tail);
    }
  }

  lemma {:induction false} SpacesByCharacter(s: string)
    requires s != ""
    ensures SpacesForPluses(PlusQuote(s)) == SpacesForPluses(PlusChar(s[0])) + SpacesForPluses(PlusQuote(s[1..]))
  {
  }

  /** Reading quoted text back octet by octet gives its UTF-8 form. */
  lemma {:induction false} UnquoteOfPlusQuote(s: string)
    ensures AllAscii(SpacesForPluses(PlusQuote(s)))
    ensures UnquoteOctets(SpacesForPluses(PlusQuote(s))) == EncodeUtf8(s)
  {
    if s != "" {
      UnquoteOfPlusQuote(s[1..]);
      SpacesByCharacter(s);
      UnquoteOneChar(s[0], SpacesForPluses(PlusQuote(s[1..])));
    }
  }

  lemma {:induction false} AsciiIsOneRun(s: string)
    requires AllAscii(s)
    ensures AsciiRun(s) == |s|
  {
  }

  lemma {:induction false} UnquoteAscii(codec: Codec, s: string)
    requires AllAscii(s) && s != ""
    ensures Unquote(codec, s) == codec.decodeUtf8(UnquoteOctets(s))
  {
    AsciiIsOneRun(s);
    assert s[..|s|] == s && s[|s|..] == "";
    assert codec.decodeUtf8(UnquoteOctets(s)) + "" == codec.decodeUtf8(UnquoteOctets(s));
  }

  lemma {:induction false} TextSurvives(codec: Codec, s: string)
    requires Lawful(codec)
    ensures Unquote(codec, SpacesForPluses(PlusQuote(s))) == s
  {
    var quoted := SpacesForPluses(PlusQuote(s));
    UnquoteOfPlusQuote(s);
    if quoted == "" {
      QuotingNeverShortens(s);
    } else {
      UnquoteAscii(codec, quoted);
    }
  }

  lemma {:induction false} QuotingNeverShortens(s: string)
    ensures |PlusQuote(s)| >= |s|
  {
    if s != "" {
      QuotingNeverShortens(s[1..]);
      UrlPath.EscapesAreSafe(UrlPath.Utf8(s[0]));
    }
  }

  lemma ItemSurvives(codec: Codec, item: Item)
    requires Lawful(codec)
    ensures '&' !in EncodeItem(item) && EncodeItem(item) != ""
    ensures ParsePiece(codec, EncodeItem(item)) == item
  {
    PlusQuoteIsSafe(item.0);
    PlusQuoteIsSafe(item.1);
    var name, value := PlusQuote(item.0), PlusQuote(item.1);
    assert '=' !in name && '=' !in value && '&' !in name && '&' !in value;
    SplitAtSeparator(name, value, '=');
    SplitFree(value, '=');
    assert [name] + [value] == [name, value] && [name, value][1..] == [value];
    TextSurvives(codec, item.0);
    TextSurvives(codec, item.1);
  }

  lemma PiecesAreFree(codec: Codec, items: seq<Item>)
    requires Lawful(codec)
    ensures Free(EncodeItems(items), '&')
  {
    forall i | 0 <= i < |items|
      ensures '&' !in EncodeItems(items)[i]
    {
      ItemSurvives(codec, items[i]);
    }
  }

  lemma EncodeItemsFrom(items: seq<Item>)
    requires items != []
    ensures EncodeItems(items)[0] == EncodeItem(items[0]) && EncodeItems(items)[1..] == EncodeItems(items[1..])
  {
  }

  lemma {:induction false} PiecesSurvive(codec: Codec, items: seq<Item>)
    requires Lawful(codec)
    ensures ParsePieces(codec, EncodeItems(items)) == items
  {
    if items != [] {
      PiecesSurvive(codec, items[1..]);
      ItemSurvives(codec, items[0]);
      EncodeItemsFrom(items);
      HeadAndTail(items);
    }
  }

  /** Parsing an encoded query gives the items back: names, values, blanks and
      all. */
  lemma ParseOfEncode(codec: Codec, items: seq<Item>)
    requires Lawful(codec)
    ensures Parse(codec, Encode(items)) == items
  {
    PiecesSurvive(codec, items);
    PiecesAreFree(codec, items);
    if items == [] {
      assert SplitOn("", '&') == [""] && [""][1..] == [];
      assert EncodeItems(items) == [];
    } else {
      SplitOfJoin(EncodeItems(items), '&');
    }
  }

  // ------------------------------------------------------- tracking and order

  const TRACKING := {
    "fbclid", "gclid", "dclid", "msclkid", "mc_cid", "mc_eid", "ref", "ref_src", "vero_conv", "vero_id"}

  predicate IsTracking(codec: Codec, name: string) {
    var folded := codec.casefold(name);
    "utm_" <= folded || folded in TRACKING
  }

  lemma TrackingIff(codec: Codec, name: string)
    ensures var folded := codec.casefold(name);
      IsTracking(codec, name) <==>
        || (|folded| >= 4 && folded[..4] == "utm_")
        || folded in {"fbclid", "gclid", "dclid", "msclkid", "mc_cid", "mc_eid"}
        || folded in {"ref", "ref_src", "vero_conv", "vero_id"}
  {
  }

  function Untracked(codec: Codec, items: seq<Item>): (kept: seq<Item>)
    ensures forall item :: item in kept <==> item in items && !IsTracking(codec, item.0)
  {
    if items == [] then []
    else
      var n := |items| - 1;
      var kept := Untracked(codec, items[..n]);
      assert items == items[..n] + [items[n]];
      if IsTracking(codec, items[n].0) then kept else kept + [items[n]]
  }

  lemma {:induction false} UntrackedIsFixed(codec: Codec, items: seq<Item>)
    requires forall item :: item in items ==> !IsTracking(codec, item.0)
    ensures Untracked(codec, items) == items
  {
    if items != [] {
      var n := |items| - 1;
      UntrackedIsFixed(codec, items[..n]);
      assert items == items[..n] + [items[n]] && items[n] in items;
    }
  }

  /** The sort key: the folded name, then the value. */
  function Key(codec: Codec, item: Item): (string, string) {
    (codec.casefold(item.0), item.1)
  }

  predicate KeyLess(a: (string, string), b: (string, string)) {
    Less(a.0, b.0) || (a.0 == b.0 && Less(a.1, b.1))
  }

  predicate Before(codec: Codec, a: Item, b: Item) {
    !KeyLess(Key(codec, b), Key(codec, a))
  }

  lemma BeforeIsTotalPreorder(codec: Codec, a: Item, b: Item, c: Item)
    ensures Before(codec, a, b) || Before(codec, b, a)
    ensures Before(codec, a, b) && Before(codec, b, c) ==> Before(codec, a, c)
    ensures Before(codec, a, b) && Before(codec, b, a) <==> Key(codec, a) == Key(codec, b)
  {
    var k, l, m := Key(codec, a), Key(codec, b), Key(codec, c);
    LessIsTotal(k.0, l.0);
    LessIsTotal(k.1, l.1);
    LessIsTotal(l.0, m.0);
    LessIsTotal(l.1, m.1);
    LessIsTotal(k.0, m.0);
    LessIsTotal(k.1, m.1);
    if Before(codec, a, b) && Before(codec, b, c) && KeyLess(m, k) {
      if Less(m.0, k.0) {
        if k.0 == l.0 { } else { LessIsTransitive(m.0, k.0, l.0); }
      }
      if Less(m.1, k.1) && k.1 != l.1 { if Less(k.1, l.1) { LessIsTransitive(m.1, k.1, l.1); } }
    }
  }

  ghost predicate InOrder(codec: Codec, items: seq<Item>) {
    forall i, j :: 0 <= i < j < |items| ==> Before(codec, items[i], items[j])
  }

  /** Places an item after every item that does not come strictly later. */
  function Insert(codec: Codec, items: seq<Item>, item: Item): seq<Item> {
    if items == [] then [item]
    else
      var n := |items| - 1;
      if Before(codec, items[n], item) then items + [item] else Insert(codec, items[..n], item) + [items[n]]
  }

  /** `list.sort` with the key above: a stable sort. */
  function Sort(codec: Codec, items: seq<Item>): seq<Item> {
    if items == [] then []
    else Insert(codec, Sort(codec, items[..|items| - 1]), items[|items| - 1])
  }

  lemma {:induction false} InsertKeepsAll(codec: Codec, items: seq<Item>, item: Item)
    ensures multiset(Insert(codec, items, item)) == multiset(items) + multiset{item}
    ensures forall x :: x in Insert(codec, items, item) ==> x in items || x == item
  {
    if items != [] {
      var n := |items| - 1;
      InsertKeepsAll(codec, items[..n], item);
      assert items == items[..n] + [items[n]];
    }
  }

  lemma {:induction false} InsertKeepsOrder(codec: Codec, items: seq<Item>, item: Item)
    requires InOrder(codec, items)
    ensures InOrder(codec, Insert(codec, items, item))
  {
    if items != [] {
      var n := |items| - 1;
      if Before(codec, items[n], item) {
        forall i | 0 <= i < n
          ensures Before(codec, items[i], item)
        {
          BeforeIsTotalPreorder(codec, items[i], items[n], item);
        }
      } else {
        InsertKeepsOrder(codec, items[..n], item);
        InsertKeepsAll(codec, items[..n], item);
        BeforeIsTotalPreorder(codec, items[n], item, item);
        var earlier := Insert(codec, items[..n], item);
        forall i | 0 <= i < |earlier|
          ensures Before(codec, earlier[i], items[n])
        {
          assert earlier[i] in earlier;
        }
      }
    }
  }

  lemma {:induction false} SortOrders(codec: Codec, items: seq<Item>)
    ensures InOrder(codec, Sort(codec, items))
    ensures multiset(Sort(codec, items)) == multiset(items)
  {
    if items != [] {
      var n := |items| - 1;
      SortOrders(codec, items[..n]);
      InsertKeepsOrder(codec, Sort(codec, items[..n]), items[n]);
      InsertKeepsAll(codec, Sort(codec, items[..n]), items[n]);
      assert items == items[..n] + [items[n]];
    }
  }

  /** The items with a given key, in their order. */
  function WithKey(codec: Codec, items: seq<Item>, key: (string, string)): seq<Item> {
    if items == [] then []
    else
      var n := |items| - 1;
      WithKey(codec, items[..n], key) + (if Key(codec, items[n]) == key then [items[n]] else [])
  }

  lemma {:induction false} WithKeyOneMore(codec: Codec, items: seq<Item>, item: Item, key: (string, string))
    ensures WithKey(codec, items + [item], key) ==
      WithKey(codec, items, key) + (if Key(codec, item) == key then [item] else [])
  {
    assert (items + [item])[..|items|] == items;
  }

  lemma {:induction false} InsertBeforeLast(codec: Codec, front: seq<Item>, last: Item, item: Item)
    ensures Before(codec, last, item) ==> Insert(codec, front + [last], item) == front + [last] + [item]
    ensures !Before(codec, last, item) ==> Insert(codec, front + [last], item) == Insert(codec, front, item) + [last]
  {
    assert (front + [last])[..|front|] == front;
  }

  lemma {:induction false} InsertIsStable(codec: Codec, items: seq<Item>, item: Item, key: (string, string))
    requires InOrder(codec, items)
    ensures WithKey(codec, Insert(codec, items, item), key) == WithKey(codec, items + [item], key)
  {
    if items == [] {
      assert items + [item] == [item];
    } else {
      var front, last := items[..|items| - 1], items[|items| - 1];
      assert items == front + [last];
      InsertBeforeLast(codec, front, last, item);
      if !Before(codec, last, item) {
        InsertIsStable(codec, front, item, key);
        SwapDifferentKeys(codec, front, last, item, key);
        WithKeyOneMore(codec, Insert(codec, front, item), last, key);
        WithKeyOneMore(codec, front + [item], last, key);
      }
    }
  }

  /** Items with different keys may change places. */
  lemma {:induction false} SwapDifferentKeys(codec: Codec, front: seq<Item>, a: Item, b: Item, key: (string, string))
    requires !Before(codec, a, b)
    ensures WithKey(codec, front + [a] + [b], key) == WithKey(codec, front + [b] + [a], key)
  {
    LaterHasAnotherKey(codec, a, b);
    WithKeyOneMore(codec, front + [a], b, key);
    WithKeyOneMore(codec, front, a, key);
    WithKeyOneMore(codec, front + [b], a, key);
    WithKeyOneMore(codec, front, b, key);
  }

  lemma LaterHasAnotherKey(codec: Codec, a: Item, b: Item)
    requires !Before(codec, a, b)
    ensures Key(codec, a) != Key(codec, b)
  {
    BeforeIsTotalPreorder(codec, a, b, b);
  }

  /** Items with equal keys keep their order. */
  lemma {:induction false} SortIsStable(codec: Codec, items: seq<Item>, key: (string, string))
    ensures WithKey(codec, Sort(codec, items), key) == WithKey(codec, items, key)
  {
    if items != [] {
      var front, last := items[..|items| - 1], items[|items| - 1];
      SortIsStable(codec, front, key);
      SortOrders(codec, front);
      InsertIsStable(codec, Sort(codec, front), last, key);
      WithKeyOneMore(codec, Sort(codec, front), last, key);
    }
  }

  lemma {:induction false} SortIsFixed(codec: Codec, items: seq<Item>)
    requires InOrder(codec, items)
    ensures Sort(codec, items) == items
  {
    if items != [] {
      var n := |items| - 1;
      SortIsFixed(codec, items[..n]);
      assert items == items[..n] + [items[n]];
    }
  }

  // -------------------------------------------------------- the whole query

  function Clean(codec: Codec, query: string): string {
    Encode(Sort(codec, Untracked(codec, Parse(codec, query))))
  }

  /** A cleaned query is its own cleaned form. */
  lemma CleanIsIdempotent(codec: Codec, query: string)
    requires Lawful(codec)
    ensures Clean(codec, Clean(codec, query)) == Clean(codec, query)
  {
    var kept := Untracked(codec, Parse(codec, query));
    var items := Sort(codec, kept);
    ParseOfEncode(codec, items);
    SortOrders(codec, kept);
    forall item | item in items
      ensures !IsTracking(codec, item.0)
    {
      assert item in multiset(items);
    }
    UntrackedIsFixed(codec, items);
    SortIsFixed(codec, items);
  }

  /** Cleaning keeps exactly the items that do not track, each as often as it
      was there, in key order, and leaves items with equal keys in their order. */
  lemma {:induction false} CleanKeepsMeaning(codec: Codec, query: string, key: (string, string))
    requires Lawful(codec)
    ensures var kept, cleaned := Untracked(codec, Parse(codec, query)), Parse(codec, Clean(codec, query));
      && multiset(cleaned) == multiset(kept) && InOrder(codec, cleaned)
      && WithKey(codec, cleaned, key) == WithKey(codec, kept, key)
  {
    var kept := Untracked(codec, Parse(codec, query));
    ParseOfEncode(codec, Sort(codec, kept));
    SortOrders(codec, kept);
    SortIsStable(codec, kept, key);
  }

  // --------------------------------------------------------- parsing, spelled out

  /** Encoding leaves unreserved characters alone, writes a space as a plus, and escapes
      the octets of all others. */
  lemma PlusCharTells(c: char)
    ensures PlusChar(c) == [c] <==>
      || c in "ABCDEFGHIJKLMNOPQRSTUVWXYZ" || c in "abcdefghijklmnopqrstuvwxyz" || c in "0123456789-._~"
    ensures PlusChar(' ') == "+"
    ensures c != ' ' && PlusChar(c) != [c] ==> PlusChar(c) == UrlPath.EscapeOctets(UrlPath.Utf8(c))
  {
    UnreservedAre(c);
  }

  /** A piece is cut at its first equals sign; without one it has an empty value. */
  lemma DivideTells(piece: string)
    ensures var (name, value) := Divide(piece);
      '=' !in name && piece == if '=' in piece then name + ("=" + value) else name
    ensures '=' !in piece ==> Divide(piece).1 == ""
  {
    var parts := SplitOn(piece, '=');
    PartsAreFree(piece, '=');
    JoinOfSplit(piece, '=');
    if '=' !in piece {
      SplitFree(piece, '=');
    } else {
      assert |parts| > 1;
      assert piece == parts[0] + ['='] + Join(parts[1..], '=');
    }
  }

  lemma {:induction false} PiecesCons(codec: Codec, piece: string, rest: seq<string>)
    ensures ParsePieces(codec, [piece] + rest) ==
      (if piece == "" then [] else [ParsePiece(codec, piece)]) + ParsePieces(codec, rest)
  {
    assert ([piece] + rest)[1..] == rest;
  }

  lemma {:induction false} PiecesConcat(codec: Codec, a: seq<string>, b: seq<string>)
    ensures ParsePieces(codec, a + b) == ParsePieces(codec, a) + ParsePieces(codec, b)
  {
    if a == [] {
      assert a + b == b;
    } else {
      PiecesConcat(codec, a[1..], b);
      HeadAndTail(a);
      Regroup([a[0]], a[1..], b);
      PiecesCons(codec, a[0], a[1..]);
      PiecesCons(codec, a[0], a[1..] + b);
      Regroup(if a[0] == "" then [] else [ParsePiece(codec, a[0])], ParsePieces(codec, a[1..]), ParsePieces(codec, b));
    }
  }

  /** A query is parsed piece by piece, and empty pieces do not count. */
  lemma ParseTells(codec: Codec, a: string, b: string)
    ensures Parse(codec, a + ['&'] + b) == Parse(codec, a) + Parse(codec, b)
    ensures Parse(codec, "") == []
    ensures a != "" && '&' !in a ==> Parse(codec, a) == [ParsePiece(codec, a)]
  {
    SplitInTwo(a, b, '&');
    PiecesConcat(codec, SplitOn(a, '&'), SplitOn(b, '&'));
    assert SplitOn("", '&') == [""];
    assert [""][1..] == [] && ParsePieces(codec, [""]) == [] + ParsePieces(codec, []);
    if a != "" && '&' !in a {
      SplitFree(a, '&');
      assert [a][1..] == [];
    }
  }

  lemma {:induction false} RunThenMore(a: string, b: string)
    requires AllAscii(a) && (b != "" ==> !IsAscii(b[0]))
    ensures AsciiRun(a + b) == |a|
  {
    if a == "" {
      assert a + b == b;
    } else {
      RunThenMore(a[1..], b);
      assert (a + b)[1..] == a[1..] + b;
    }
  }

  /** Runs of ASCII are decoded whole; other characters stand as they are. */
  lemma {:induction false} UnquoteTells(codec: Codec, a: string, b: string)
    requires AllAscii(a) && (b != "" ==> !IsAscii(b[0]))
    ensures a != "" ==> Unquote(codec, a + b) == codec.decodeUtf8(UnquoteOctets(a)) + Unquote(codec, b)
    ensures b != "" ==> Unquote(codec, b) == [b[0]] + Unquote(codec, b[1..])
  {
    RunThenMore(a, b);
    assert (a + b)[..|a|] == a && (a + b)[|a|..] == b;
  }

  /** The text starts with an escape: a percent sign and two hexadecimal digits. */
  predicate StartsWithEscape(s: string) {
    && |s| >= 3 && s[0] == '%'
    && s[1] in "0123456789ABCDEFabcdef" && s[2] in "0123456789ABCDEFabcdef"
  }

  /** An escape is the octet of its digits; a percent sign without two digits, like any
      other character, is its own. */
  lemma {:induction false} OctetsTell(s: string)
    requires AllAscii(s) && s != ""
    ensures StartsWithEscape(s) ==>
      IsHex(s[1]) && IsHex(s[2]) && UnquoteOctets(s) == [OctetAt(s)] + UnquoteOctets(s[3..])
    ensures !StartsWithEscape(s) ==> UnquoteOctets(s) == [s[0] as nat] + UnquoteOctets(s[1..])
  {
    if |s| >= 3 {
      HexDigitsAre(s[1]);
      HexDigitsAre(s[2]);
    }
  }
}
