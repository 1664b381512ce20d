/** Path cleaning (audit_engine/urls.py:122-131): dot segments and repeated
    slashes are removed as posixpath.normpath does, the trailing slash is kept,
    and unsafe characters are quoted. */
module UrlPath {
  import opened Outcomes
  import opened UrlEscapes
  import opened Splitting

  // ----------------------------------------------------------- dot segments

  /** One path component taken into account: empty and single-dot components
      vanish, a double dot removes the one before it. */
  function Push(stack: seq<string>, part: string): seq<string> {
    if part == "" || part == "." then stack
    else if part == ".." then (if stack == [] then stack else stack[..|stack| - 1])
    else stack + [part]
  }

  function Resolve(stack: seq<string>, parts: seq<string>): seq<string>
    decreases parts
  {
    if parts == [] then stack else Resolve(Push(stack, parts[0]), parts[1..])
  }

  /** The segments an absolute path names. */
  function Segments(path: string): seq<string> {
    Resolve([], SplitOn(path, '/'))
  }

  /** Exactly two leading slashes are kept; one, or three and more, become one. */
  function Root(path: string): string
    requires path != "" && path[0] == '/'
  {
    if |path| >= 2 && path[1] == '/' && !(|path| >= 3 && path[2] == '/') then "//" else "/"
  }

  /** posixpath.normpath of an absolute path. */
  function NormPath(path: string): string
    requires path != "" && path[0] == '/'
  {
    Root(path) + Join(Segments(path), '/')
  }

  predicate EndsWithSlash(path: string) {
    path != "" && path[|path| - 1] == '/'
  }

  /** The cleaned path: normpath, with a trailing slash put back. */
  function Clean(path: string): string
    requires path != "" && path[0] == '/'
  {
    var clean := NormPath(path);
    if EndsWithSlash(path) && clean != "/" then clean + "/" else clean
  }

  predicate IsSegment(part: string) {
    part != "" && part != "." && part != ".." && '/' !in part
  }

  predicate AreSegments(parts: seq<string>) {
    forall i :: 0 <= i < |parts| ==> IsSegment(parts[i])
  }

  lemma {:induction false} ResolveYieldsSegments(stack: seq<string>, parts: seq<string>)
    requires AreSegments(stack) && Free(parts, '/')
    ensures AreSegments(Resolve(stack, parts))
    decreases parts
  {
    if parts != [] {
      ResolveYieldsSegments(Push(stack, parts[0]), parts[1..]);
    }
  }

  lemma {:induction false} ResolveKeepsSegments(stack: seq<string>, parts: seq<string>)
    requires AreSegments(parts)
    ensures Resolve(stack, parts) == stack + parts
    decreases parts
  {
    if parts == [] {
      assert stack + parts == stack;
    } else {
      ResolveKeepsSegments(stack + [parts[0]], parts[1..]);
      assert stack + [parts[0]] + parts[1..] == stack + parts;
    }
  }

  lemma {:induction false} ResolveConcat(stack: seq<string>, a: seq<string>, b: seq<string>)
    ensures Resolve(stack, a + b) == Resolve(Resolve(stack, a), b)
    decreases a
  {
    if a == [] {
      assert a + b == b;
    } else {
      ResolveConcat(Push(stack, a[0]), a[1..], b);
      assert (a + b)[1..] == a[1..] + b;
    }
  }

  lemma SegmentsAreSegments(path: string)
    ensures AreSegments(Segments(path))
  {
    PartsAreFree(path, '/');
    ResolveYieldsSegments([], SplitOn(path, '/'));
  }

  /** A leading or a trailing slash names no segment. */
  lemma SlashesNameNothing(path: string)
    ensures Segments("/" + path) == Segments(path)
    ensures Segments(path + "/") == Segments(path)
  {
    assert ("/" + path)[1..] == path;
    assert ([""] + SplitOn(path, '/'))[1..] == SplitOn(path, '/');
    SplitTrailing(path, '/');
    ResolveConcat([], SplitOn(path, '/'), [""]);
  }

  lemma {:induction false} SegmentsOfJoin(segments: seq<string>)
    requires AreSegments(segments)
    ensures Segments(Join(segments, '/')) == segments
  {
    if segments == [] {
      assert SplitOn("", '/') == [""];
    } else {
      SplitOfJoin(segments, '/');
      ResolveKeepsSegments([], segments);
      assert [] + segments == segments;
    }
  }

  // -------------------------------------------------- what dot segments name

  /** What follows a slash is read after what comes before it. */
  lemma {:induction false} SegmentsAfterSlash(a: string, b: string)
    ensures Segments(a + ("/" + b)) == Resolve(Segments(a), SplitOn(b, '/'))
  {
    assert a + ("/" + b) == a + ['/'] + b;
    SplitInTwo(a, b, '/');
    ResolveConcat([], SplitOn(a, '/'), SplitOn(b, '/'));
  }

  lemma {:induction false} ResolveFirst(stack: seq<string>, part: string, rest: string)
    requires '/' !in part
    ensures Resolve(stack, SplitOn(part + ("/" + rest), '/')) == Resolve(Push(stack, part), SplitOn(rest, '/'))
  {
    assert part + ("/" + rest) == part + ['/'] + rest;
    SplitAtSeparator(part, rest, '/');
    assert ([part] + SplitOn(rest, '/'))[1..] == SplitOn(rest, '/');
  }

  lemma PushAndPop(stack: seq<string>, segment: string)
    requires IsSegment(segment)
    ensures Push(Push(stack, segment), "..") == stack
  {
  }

  /** A double dot undoes the segment before it. */
  lemma DoubleDotUndoes(a: string, segment: string, b: string)
    requires IsSegment(segment)
    ensures Segments(a + ("/" + (segment + ("/" + (".." + ("/" + b)))))) == Segments(a + ("/" + b))
  {
    SegmentsAfterSlash(a, segment + ("/" + (".." + ("/" + b))));
    SegmentsAfterSlash(a, b);
    ResolveFirst(Segments(a), segment, ".." + ("/" + b));
    ResolveFirst(Push(Segments(a), segment), "..", b);
    PushAndPop(Segments(a), segment);
  }

  /** Also at the end of the path. */
  lemma LastDoubleDotUndoes(a: string, segment: string)
    requires IsSegment(segment)
    ensures Segments(a + ("/" + (segment + ("/" + "..")))) == Segments(a)
  {
    SegmentsAfterSlash(a, segment + ("/" + ".."));
    ResolveFirst(Segments(a), segment, "..");
    SplitFree("..", '/');
    PushAndPop(Segments(a), segment);
  }

  /** At the root there is nothing to undo. */
  lemma DoubleDotAtRoot(b: string)
    ensures Segments("/" + (".." + ("/" + b))) == Segments("/" + b)
  {
    SlashesNameNothing(".." + ("/" + b));
    SlashesNameNothing(b);
    ResolveFirst([], "..", b);
  }

  /** A single dot, and a doubled slash, name nothing. */
  lemma SingleDotAndDoubleSlash(a: string, b: string)
    ensures Segments(a + ("/" + ("." + ("/" + b)))) == Segments(a + ("/" + b))
    ensures Segments(a + ("/" + ("/" + b))) == Segments(a + ("/" + b))
  {
    SegmentsAfterSlash(a, "." + ("/" + b));
    SegmentsAfterSlash(a, "/" + b);
    SegmentsAfterSlash(a, b);
    ResolveFirst(Segments(a), ".", b);
    ResolveFirst(Segments(a), "", b);
    assert "" + ("/" + b) == "/" + b;
  }

  /** And any other segment is named as it is, after those before it. */
  lemma SegmentIsNamed(a: string, segment: string)
    requires IsSegment(segment)
    ensures Segments(a + ("/" + segment)) == Segments(a) + [segment]
  {
    SegmentsAfterSlash(a, segment);
    SplitFree(segment, '/');
    ResolveKeepsSegments(Segments(a), [segment]);
  }

  // --------------------------------------------------- the shape of a result

  /** A cleaned path: its root, its segments, and a trailing slash or none. */
  predicate IsShape(root: string, segments: seq<string>, tail: string) {
    root in {"/", "//"} && tail in {"", "/"} && AreSegments(segments)
  }

  function Shape(root: string, segments: seq<string>, tail: string): string {
    root + Join(segments, '/') + tail
  }

  lemma {:induction false} JoinEnds(segments: seq<string>)
    requires AreSegments(segments) && segments != []
    ensures Join(segments, '/') != ""
    ensures Join(segments, '/')[0] != '/' && !EndsWithSlash(Join(segments, '/'))
  {
    if |segments| > 1 { JoinEnds(segments[1..]); }
  }

  lemma SegmentsOfShape(root: string, segments: seq<string>, tail: string)
    requires IsShape(root, segments, tail)
    ensures Segments(Shape(root, segments, tail)) == segments
  {
    var body := Join(segments, '/');
    SegmentsOfJoin(segments);
    SlashesNameNothing(body);
    SlashesNameNothing("/" + body);
    assert "//" + body == "/" + ("/" + body);
    SlashesNameNothing(root + body);
    assert root + body + "" == root + body;
  }

  /** Reading a shape with segments back: its root and its tail. */
  lemma ReadShape(root: string, segments: seq<string>, tail: string)
    requires IsShape(root, segments, tail) && segments != []
    ensures Root(Shape(root, segments, tail)) == root
    ensures EndsWithSlash(Shape(root, segments, tail)) <==> tail == "/"
  {
    var body := Join(segments, '/');
    JoinEnds(segments);
    var text := root + body + tail;
    assert text[|root|] == body[0];
    assert tail == "" ==> text[|text| - 1] == body[|body| - 1];
  }

  /** The cleaned path of any absolute path is a shape. */
  lemma CleanIsAShape(path: string) returns (tail: string)
    requires path != "" && path[0] == '/'
    ensures IsShape(Root(path), Segments(path), tail) && Clean(path) == Shape(Root(path), Segments(path), tail)
    ensures tail == (if EndsWithSlash(path) && NormPath(path) != "/" then "/" else "")
  {
    SegmentsAreSegments(path);
    tail := if EndsWithSlash(path) && NormPath(path) != "/" then "/" else "";
    assert NormPath(path) + "" == NormPath(path);
  }

  /** Cleaning a cleaned path changes nothing unless it is bare slashes. */
  lemma CleanShape(root: string, segments: seq<string>, tail: string)
    requires IsShape(root, segments, tail) && segments != []
    ensures Clean(Shape(root, segments, tail)) == Shape(root, segments, tail)
  {
    SegmentsOfShape(root, segments, tail);
    ReadShape(root, segments, tail);
    JoinEnds(segments);
    assert root + Join(segments, '/') + "" == root + Join(segments, '/');
  }

  lemma CleanBareSlashes()
    ensures Clean("/") == "/" && Clean("//") == "///" && Clean("///") == "/"
  {
    assert SplitOn("/", '/') == ["", ""] by { assert "/"[1..] == ""; }
    assert "//"[1..] == "/" && "///"[1..] == "//";
    assert [""] + ["", ""] == ["", "", ""] && [""] + ["", "", ""] == ["", "", "", ""];
    SlashesNameNothing("");
    assert "/" + "" == "/";
    SlashesNameNothing("/");
    assert "/" + "/" == "//";
    SlashesNameNothing("//");
    assert "/" + "//" == "///";
    assert Segments("") == [];
  }

  /** Cleaning is idempotent exactly when normpath does not give `//`. */
  lemma CleanIsIdempotentIff(path: string)
    requires path != "" && path[0] == '/'
    ensures Clean(path) != "" && Clean(path)[0] == '/'
    ensures Clean(Clean(path)) == Clean(path) <==> NormPath(path) != "//"
    ensures Clean(Clean(Clean(Clean(path)))) == Clean(Clean(Clean(path)))
  {
    var tail := CleanIsAShape(path);
    if Segments(path) != [] {
      CleanShape(Root(path), Segments(path), tail);
      JoinEnds(Segments(path));
    } else {
      CleanBareSlashes();
      assert Join(Segments(path), '/') == "";
      assert Root(path) + "" == Root(path);
    }
  }

  // ----------------------------------------------------------------- quoting

  /** The octets of a character in UTF-8. */
  function Utf8(c: char): (octets: seq<Octet>)
    ensures |octets| == if c as int < 128 then 1 else if c as int < 2048 then 2 else if c as int < 65536 then 3 else 4
  {
    var n := c as nat;
    if n < 0x80 then [n]
    else if n < 0x800 then [0xC0 + n / 0x40, 0x80 + n % 0x40]
    else if n < 0x10000 then [0xE0 + n / 0x1000, 0x80 + n / 0x40 % 0x40, 0x80 + n % 0x40]
    else
      assert n < 0x110000;
      [0xF0 + n / 0x40000, 0x80 + n / 0x1000 % 0x40, 0x80 + n / 0x40 % 0x40, 0x80 + n % 0x40]
  }

  function EscapeOctets(octets: seq<Octet>): string {
    if octets == [] then "" else EscapeText(octets[0]) + EscapeOctets(octets[1..])
  }

  /** What `quote` leaves alone in a path. */
  predicate IsPathSafe(c: char) {
    IsUnreserved(c as nat) || c in "/%:@!$&'()*+,;="
  }

  function QuoteChar(c: char): string {
    if IsPathSafe(c) then [c] else EscapeOctets(Utf8(c))
  }

  function Quote(s: string): string {
    if s == "" then "" else QuoteChar(s[0]) + Quote(s[1..])
  }

  predicate AllSafe(s: string) {
    forall i :: 0 <= i < |s| ==> IsPathSafe(s[i])
  }

  lemma {:induction false} QuoteCons(c: char, s: string)
    ensures Quote([c] + s) == QuoteChar(c) + Quote(s)
  {
    assert ([c] + s)[1..] == s;
  }

  lemma {:induction false} QuoteConcat(a: string, b: string)
    ensures Quote(a + b) == Quote(a) + Quote(b)
  {
    if a == "" {
      assert a + b == b;
    } else {
      QuoteConcat(a[1..], b);
      HeadAndTail(a);
      Regroup([a[0]], a[1..], b);
      QuoteCons(a[0], a[1..] + b);
      Regroup(QuoteChar(a[0]), Quote(a[1..]), Quote(b));
    }
  }

  lemma {:induction false} QuoteLeavesSafe(s: string)
    requires AllSafe(s)
    ensures Quote(s) == s
  {
    if s != "" {
      QuoteLeavesSafe(s[1..]);
      assert [s[0]] + s[1..] == s;
    }
  }

  lemma {:induction false} EscapesAreSafe(octets: seq<Octet>)
    ensures AllSafe(EscapeOctets(octets)) && '/' !in EscapeOctets(octets)
    ensures octets != [] ==> EscapeOctets(octets) != "" && EscapeOctets(octets)[0] == '%'
  {
    if octets != [] { EscapesAreSafe(octets[1..]); }
  }

  lemma {:induction false} QuoteIsSafe(s: string)
    ensures AllSafe(Quote(s))
  {
    if s != "" {
      QuoteIsSafe(s[1..]);
      EscapesAreSafe(Utf8(s[0]));
    }
  }

  lemma {:induction false} QuoteKeepsSlashFree(s: string)
    requires '/' !in s
    ensures '/' !in Quote(s)
  {
    if s != "" {
      QuoteKeepsSlashFree(s[1..]);
      EscapesAreSafe(Utf8(s[0]));
    }
  }

  /** Quoting a segment gives a segment: the dot segments cannot appear. */
  lemma {:induction false} QuoteSegment(s: string)
    requires IsSegment(s)
    ensures IsSegment(Quote(s))
  {
    QuoteKeepsSlashFree(s);
    EscapesAreSafe(Utf8(s[0]));
    if AllSafe(s) {
      QuoteLeavesSafe(s);
    } else {
      UnsafeLeavesAPercent(s);
    }
  }

  lemma {:induction false} UnsafeLeavesAPercent(s: string)
    requires !AllSafe(s)
    ensures '%' in Quote(s)
  {
    EscapesAreSafe(Utf8(s[0]));
    if IsPathSafe(s[0]) {
      assert !AllSafe(s[1..]) by {
        var i :| 0 <= i < |s| && !IsPathSafe(s[i]);
        assert s[1..][i - 1] == s[i];
      }
      UnsafeLeavesAPercent(s[1..]);
    }
  }

  function QuoteAll(parts: seq<string>): (quoted: seq<string>)
    ensures |quoted| == |parts| && forall i :: 0 <= i < |parts| ==> quoted[i] == Quote(parts[i])
  {
    seq(|parts|, i requires 0 <= i < |parts| => Quote(parts[i]))
  }

  lemma {:induction false} QuoteOfJoin(parts: seq<string>)
    ensures Quote(Join(parts, '/')) == Join(QuoteAll(parts), '/')
  {
    if |parts| > 1 {
      QuoteOfJoin(parts[1..]);
      assert QuoteAll(parts)[1..] == QuoteAll(parts[1..]);
      QuoteConcat(parts[0] + "/", Join(parts[1..], '/'));
      QuoteConcat(parts[0], "/");
      QuoteLeavesSafe("/");
    }
  }

  /** Quoting keeps the shape of a cleaned path, segment by segment. */
  lemma QuoteShape(root: string, segments: seq<string>, tail: string)
    requires IsShape(root, segments, tail)
    ensures IsShape(root, QuoteAll(segments), tail)
    ensures Quote(Shape(root, segments, tail)) == Shape(root, QuoteAll(segments), tail)
  {
    forall i | 0 <= i < |segments|
      ensures IsSegment(QuoteAll(segments)[i])
    {
      QuoteSegment(segments[i]);
    }
    QuoteOfJoin(segments);
    QuoteConcat(root + Join(segments, '/'), tail);
    QuoteConcat(root, Join(segments, '/'));
    QuoteLeavesSafe(root);
    QuoteLeavesSafe(tail);
  }

  // ----------------------------------------------- escapes inside a cleaned path

  /** The escape at the front of a text: upper-case, of an octet that stays
      escaped. */
  predicate LastingEscape(s: string) {
    && |s| >= 3 && s[0] == '%' && IsHex(s[1]) && IsHex(s[2]) && !('a' <= s[1] <= 'f') && !('a' <= s[2] <= 'f')
    && !IsUnreserved(OctetAt(s)) && !IsProhibited(OctetAt(s))
  }

  /** No control character, DEL or backslash. */
  predicate IsTame(c: char) {
    !IsProhibited(c as nat)
  }

  /** Every percent sign starts a lasting escape, every other character is tame. */
  predicate IsLasting(s: string) {
    if s == "" then true
    else if s[0] == '%' then LastingEscape(s) && IsLasting(s[3..])
    else IsTame(s[0]) && IsLasting(s[1..])
  }

  lemma LastingEscapeText(s: string)
    requires s != "" && s[0] == '%' && LastingEscape(s)
    ensures s == EscapeText(OctetAt(s)) + s[3..]
  {
    UpperDigitIsItsValue(s[1]);
    UpperDigitIsItsValue(s[2]);
    assert s == s[..3] + s[3..];
  }

  lemma LastingEscapeIsNormal(octet: Octet, tail: string)
    requires !IsUnreserved(octet) && !IsProhibited(octet) && IsNormal(tail)
    ensures IsNormal(EscapeText(octet) + tail)
  {
    PrependEscape(octet, tail);
    NormalCons(Escaped(octet), tail);
  }

  lemma {:induction false} LastingIsNormal(s: string)
    requires IsLasting(s)
    ensures IsNormal(s)
  {
    if s == "" {
    } else if s[0] == '%' {
      LastingIsNormal(s[3..]);
      LastingEscapeText(s);
      LastingEscapeIsNormal(OctetAt(s), s[3..]);
    } else {
      LastingIsNormal(s[1..]);
      PrependPlain(s[0], s[1..]);
      assert s == [s[0]] + s[1..];
      NormalCons(Plain(s[0]), s[1..]);
    }
  }

  lemma {:induction false} NormalCons(token: Token, rest: string)
    requires IsNormal(rest) && WellEscaped(Spell(token) + rest)
    requires Tokens(Spell(token) + rest) == [token] + Tokens(rest)
    requires token.Escaped? ==> !IsUnreserved(token.octet) && !IsProhibited(token.octet)
    ensures IsNormal(Spell(token) + rest)
  {
    assert ([token] + Tokens(rest))[1..] == Tokens(rest);
  }

  lemma {:induction false} LastingPrepend(octet: Octet, rest: string)
    requires IsLasting(rest) && !IsProhibited(octet)
    ensures IsUnreserved(octet) ==> IsLasting([octet as char] + rest)
    ensures !IsUnreserved(octet) ==> IsLasting(EscapeText(octet) + rest)
  {
    var text := EscapeText(octet) + rest;
    assert text[3..] == rest && OctetAt(text) == octet;
    if IsUnreserved(octet) { assert ([octet as char] + rest)[1..] == rest; }
  }

  /** What the escape normaliser accepts, it turns into a text of lasting escapes. */
  lemma {:induction false} SubstituteIsLasting(path: string)
    requires WellEscaped(path) && !HasProhibited(Tokens(path))
    requires forall c :: c in path ==> IsTame(c)
    ensures IsLasting(Substitute(path))
  {
    if path != "" {
      var rest := if path[0] == '%' then path[3..] else path[1..];
      assert Tokens(path)[1..] == Tokens(rest);
      assert !HasProhibited(Tokens(rest)) by {
        assert forall i :: 0 <= i < |Tokens(rest)| ==> Tokens(rest)[i] == Tokens(path)[i + 1];
      }
      SubstituteIsLasting(rest);
      if path[0] == '%' {
        assert Tokens(path)[0] == Escaped(OctetAt(path));
        LastingPrepend(OctetAt(path), Substitute(rest));
      } else {
        assert ([path[0]] + Substitute(rest))[1..] == Substitute(rest);
      }
    }
  }

  lemma {:induction false} LastingConcat(a: string, b: string)
    requires IsLasting(a) && IsLasting(b)
    ensures IsLasting(a + b)
  {
    if a == "" {
      assert a + b == b;
    } else {
      var n := if a[0] == '%' then 3 else 1;
      LastingConcat(a[n..], b);
      assert (a + b)[n..] == a[n..] + b;
    }
  }

  predicate AllLasting(parts: seq<string>) {
    forall i :: 0 <= i < |parts| ==> IsLasting(parts[i])
  }

  /** Splitting never cuts an escape in two. */
  lemma {:induction false} SplitKeepsLasting(s: string)
    requires IsLasting(s)
    ensures AllLasting(SplitOn(s, '/'))
  {
    if s == "" {
    } else if s[0] == '%' {
      SplitKeepsLasting(s[3..]);
      assert s == s[..3] + s[3..];
      SplitPrefix(s[..3], s[3..], '/');
      var first := SplitOn(s[3..], '/')[0];
      assert (s[..3] + first)[3..] == first;
    } else {
      SplitKeepsLasting(s[1..]);
      if s[0] != '/' {
        var first := SplitOn(s[1..], '/')[0];
        assert ([s[0]] + first)[1..] == first;
      }
    }
  }

  lemma {:induction false} ResolveKeepsLasting(stack: seq<string>, parts: seq<string>)
    requires AllLasting(stack) && AllLasting(parts)
    ensures AllLasting(Resolve(stack, parts))
    decreases parts
  {
    if parts != [] { ResolveKeepsLasting(Push(stack, parts[0]), parts[1..]); }
  }

  lemma {:induction false} JoinKeepsLasting(parts: seq<string>)
    requires AllLasting(parts)
    ensures IsLasting(Join(parts, '/'))
  {
    if |parts| > 1 {
      JoinKeepsLasting(parts[1..]);
      assert IsLasting("/") by { assert "/"[1..] == ""; }
      LastingConcat(parts[0], "/");
      LastingConcat(parts[0] + "/", Join(parts[1..], '/'));
    }
  }

  /** So cleaning a path with lasting escapes leaves one. */
  lemma {:induction false} CleanKeepsLasting(path: string)
    requires path != "" && path[0] == '/' && IsLasting(path)
    ensures IsLasting(Clean(path))
  {
    assert IsLasting("/") by { assert "/"[1..] == ""; }
    assert IsLasting("//") by { assert "//"[1..] == "/"; }
    SplitKeepsLasting(path);
    ResolveKeepsLasting([], SplitOn(path, '/'));
    JoinKeepsLasting(Segments(path));
    LastingConcat(Root(path), Join(Segments(path), '/'));
    LastingConcat(NormPath(path), "/");
  }

  lemma {:induction false} EscapedOctetsLast(octets: seq<Octet>)
    requires forall i :: 0 <= i < |octets| ==> !IsUnreserved(octets[i]) && !IsProhibited(octets[i])
    ensures IsLasting(EscapeOctets(octets))
  {
    if octets != [] {
      EscapedOctetsLast(octets[1..]);
      LastingPrepend(octets[0], EscapeOctets(octets[1..]));
    }
  }

  lemma UnsafeOctets(c: char)
    requires IsTame(c) && !IsPathSafe(c)
    ensures forall i :: 0 <= i < |Utf8(c)| ==> !IsUnreserved(Utf8(c)[i]) && !IsProhibited(Utf8(c)[i])
  {
  }

  lemma {:induction false} QuotedEscapeLasts(s: string)
    requires IsLasting(s) && s != "" && s[0] == '%' && IsLasting(Quote(s[3..]))
    ensures IsLasting(Quote(s))
  {
    assert s == s[..3] + s[3..];
    QuoteConcat(s[..3], s[3..]);
    QuoteLeavesSafe(s[..3]);
    assert (s[..3] + Quote(s[3..]))[3..] == Quote(s[3..]);
    assert OctetAt(s[..3] + Quote(s[3..])) == OctetAt(s);
  }

  /** Quoting adds only escapes that last. */
  lemma {:induction false} QuoteKeepsLasting(s: string)
    requires IsLasting(s)
    ensures IsLasting(Quote(s))
  {
    if s == "" {
    } else if s[0] == '%' {
      QuoteKeepsLasting(s[3..]);
      QuotedEscapeLasts(s);
    } else {
      QuoteKeepsLasting(s[1..]);
      if IsPathSafe(s[0]) {
        assert ([s[0]] + Quote(s[1..]))[1..] == Quote(s[1..]);
      } else {
        UnsafeOctets(s[0]);
        EscapedOctetsLast(Utf8(s[0]));
        LastingConcat(EscapeOctets(Utf8(s[0])), Quote(s[1..]));
      }
    }
  }

  // ------------------------------------------------------- the whole pipeline

  datatype PathError = BadEscape(error: EscapeError) | ProhibitedCharacter

  /** The path of a split URL: empty, or starting at the root. */
  predicate IsUrlPath(path: string) {
    path == "" || path[0] == '/'
  }

  /** The path with its escapes normalised; an empty path is the root. */
  function Unescaped(path: string): Result<string, PathError> {
    var rooted := if path == "" then "/" else path;
    var decoded := NormalizeEscapes(rooted);
    if decoded.Err? then Err(BadEscape(decoded.error))
    else if '\\' in decoded.value || '\0' in decoded.value then Err(ProhibitedCharacter)
    else Ok(decoded.value)
  }

  lemma UnescapedStartsAtRoot(path: string)
    requires IsUrlPath(path) && Unescaped(path).Ok?
    ensures Unescaped(path).value != "" && Unescaped(path).value[0] == '/'
  {
  }

  function PathOf(path: string): Result<string, PathError>
    requires IsUrlPath(path)
  {
    var decoded := Unescaped(path);
    if decoded.Err? then Err(decoded.error)
    else
      UnescapedStartsAtRoot(path);
      Ok(Quote(Clean(decoded.value)))
  }

  /** Paths that name the same segments and agree at their ends are one path. */
  lemma SameSegmentsSamePath(path: string, other: string, decoded: string, otherDecoded: string)
    requires IsUrlPath(path) && IsUrlPath(other)
    requires Unescaped(path) == Ok(decoded) && Unescaped(other) == Ok(otherDecoded)
    requires decoded != "" && decoded[0] == '/' && otherDecoded != "" && otherDecoded[0] == '/'
    requires Segments(decoded) == Segments(otherDecoded) && Root(decoded) == Root(otherDecoded)
    requires EndsWithSlash(decoded) == EndsWithSlash(otherDecoded)
    ensures PathOf(path) == PathOf(other)
  {
  }

  /** The first three characters tell the root. */
  lemma SameStartSameRoot(a: string, tail: string, other: string)
    requires |a| >= 2 && a[0] == '/'
    ensures Root(a + ("/" + tail)) == Root(a + ("/" + other))
  {
    assert (a + ("/" + tail))[..3] == (a + ("/" + other))[..3] == (a + "/")[..3];
  }

  lemma ShortStartSameRoot(a: string, tail: string, other: string)
    requires a == "" || a == "/"
    requires tail == "" || tail[0] != '/'
    requires other == "" || other[0] != '/'
    ensures Root(a + ("/" + tail)) == Root(a + ("/" + other))
  {
    assert a == "" ==> a + ("/" + tail) == "/" + tail && a + ("/" + other) == "/" + other;
  }

  lemma SameEnd(a: string, front: string, b: string)
    ensures EndsWithSlash(a + ("/" + (front + ("/" + b)))) == EndsWithSlash(a + ("/" + b))
  {
    assert b != "" ==> (front + ("/" + b))[|front| + |b|] == b[|b| - 1];
  }

  lemma DetourEnds(a: string, segment: string, b: string)
    requires IsSegment(segment) && (a == "" || a[0] == '/') && (|a| <= 1 ==> b == "" || b[0] != '/')
    ensures var plain, detour := a + ("/" + b), a + ("/" + (segment + ("/" + (".." + ("/" + b)))));
      Root(detour) == Root(plain) && EndsWithSlash(detour) == EndsWithSlash(plain)
  {
    var tail := segment + ("/" + (".." + ("/" + b)));
    if |a| >= 2 {
      SameStartSameRoot(a, tail, b);
    } else {
      assert tail[0] == segment[0];
      ShortStartSameRoot(a, tail, b);
    }
    SameEnd(a, segment + ("/" + ".."), b);
    assert (segment + ("/" + "..")) + ("/" + b) == tail;
  }

  /** A path with a segment that a double dot undoes is the path without them,
      however the two are escaped. */
  lemma DetourIsCleaned(path: string, detour: string, a: string, segment: string, b: string)
    requires IsUrlPath(path) && IsUrlPath(detour) && IsSegment(segment)
    requires Unescaped(path) == Ok(a + ("/" + b))
    requires Unescaped(detour) == Ok(a + ("/" + (segment + ("/" + (".." + ("/" + b))))))
    requires (a == "" || a[0] == '/') && (|a| <= 1 ==> b == "" || b[0] != '/')
    ensures PathOf(detour) == PathOf(path)
  {
    DoubleDotUndoes(a, segment, b);
    DetourEnds(a, segment, b);
    SameSegmentsSamePath(detour, path, a + ("/" + (segment + ("/" + (".." + ("/" + b))))), a + ("/" + b));
  }

  lemma {:induction false} BackslashSurvives(path: string, at: nat)
    requires WellEscaped(path) && at < |path| && path[at] == '\\'
    ensures '\\' in Substitute(path)
  {
    if path[0] == '%' {
      BackslashSurvives(path[3..], at - 3);
    } else if at > 0 {
      BackslashSurvives(path[1..], at - 1);
    }
  }

  /** No control characters: the URL as a whole is checked for them first. */
  predicate IsPrintable(s: string) {
    forall i :: 0 <= i < |s| ==> s[i] as int >= 32 && s[i] as int != 127
  }

  lemma UnescapedIsLasting(path: string)
    requires IsUrlPath(path) && IsPrintable(path) && Unescaped(path).Ok?
    ensures IsLasting(Unescaped(path).value)
  {
    var rooted := if path == "" then "/" else path;
    forall i | 0 <= i < |rooted|
      ensures IsTame(rooted[i])
    {
      if rooted[i] == '\\' { BackslashSurvives(rooted, i); }
    }
    SubstituteIsLasting(rooted);
  }

  /** The path a URL ends up with: rooted, made of safe characters and lasting
      escapes, and naming the segments of the decoded path, quoted. */
  lemma PathShape(path: string) returns (root: string, segments: seq<string>, tail: string)
    requires IsUrlPath(path) && IsPrintable(path) && PathOf(path).Ok?
    ensures IsShape(root, segments, tail) && PathOf(path).value == Shape(root, segments, tail)
    ensures segments == QuoteAll(Segments(Unescaped(path).value))
    ensures AllSafe(PathOf(path).value) && IsLasting(PathOf(path).value)
    ensures (root == "//" && segments == []) <==> NormPath(Unescaped(path).value) == "//"
    ensures segments == [] && root == "/" ==> tail == ""
  {
    var decoded := Unescaped(path).value;
    UnescapedStartsAtRoot(path);
    UnescapedIsLasting(path);
    root := Root(decoded);
    tail := CleanIsAShape(decoded);
    segments := QuoteAll(Segments(decoded));
    QuoteShape(root, Segments(decoded), tail);
    QuoteIsSafe(Clean(decoded));
    CleanKeepsLasting(decoded);
    QuoteKeepsLasting(Clean(decoded));
  }

  lemma {:induction false} LastingPathIsUnescaped(path: string)
    requires path != "" && IsLasting(path)
    ensures Unescaped(path) == Ok(path)
  {
    LastingIsNormal(path);
    NormalIsFixed(path);
    LastingHasNoBackslash(path);
  }

  lemma {:induction false} LastingHasNoBackslash(s: string)
    requires IsLasting(s)
    ensures '\\' !in s && '\0' !in s
  {
    if s == "" {
    } else if s[0] == '%' {
      LastingHasNoBackslash(s[3..]);
      assert s == s[..3] + s[3..];
    } else {
      LastingHasNoBackslash(s[1..]);
      assert s == [s[0]] + s[1..];
    }
  }

  /** What a second pass makes of a shape. */
  lemma ShapeAgain(root: string, segments: seq<string>, tail: string)
    requires IsShape(root, segments, tail) && (segments == [] && root == "/" ==> tail == "")
    requires AllSafe(Shape(root, segments, tail)) && IsLasting(Shape(root, segments, tail))
    ensures var q := Shape(root, segments, tail);
      q != "" && q[0] == '/' && PathOf(q).Ok? && (PathOf(q).value == q <==> !(root == "//" && segments == []))
  {
    var q := Shape(root, segments, tail);
    LastingPathIsUnescaped(q);
    if segments != [] {
      CleanShape(root, segments, tail);
      QuoteLeavesSafe(q);
    } else {
      assert q == root + tail;
      BareShapeAgain(root, tail);
    }
  }

  lemma BareShapes(root: string, tail: string)
    requires root in {"/", "//"} && tail in {"", "/"} && (root == "/" ==> tail == "")
    ensures root + tail == if root == "/" then "/" else if tail == "" then "//" else "///"
  {
  }

  lemma BareSlashesAgain()
    ensures Quote(Clean("/")) == "/" && Quote(Clean("//")) == "///" && Quote(Clean("///")) == "/"
  {
    CleanBareSlashes();
    QuoteLeavesSafe("/");
    QuoteLeavesSafe("///");
  }

  lemma BareShapeAgain(root: string, tail: string)
    requires root in {"/", "//"} && tail in {"", "/"} && (root == "/" ==> tail == "")
    ensures Quote(Clean(root + tail)) == root + tail <==> root != "//"
  {
    BareShapes(root, tail);
    BareSlashesAgain();
    assert |"/"| < |"//"| < |"///"|;
  }

  /** A second pass over an accepted path changes nothing exactly when the path
      did not clean to `//`; it never fails. */
  lemma {:induction false} PathIsIdempotentIff(path: string)
    requires IsUrlPath(path) && IsPrintable(path) && PathOf(path).Ok?
    ensures IsUrlPath(PathOf(path).value) && PathOf(PathOf(path).value).Ok?
    ensures PathOf(PathOf(path).value) == PathOf(path) <==> NormPath(Unescaped(path).value) != "//"
  {
    var root, segments, tail := PathShape(path);
    ShapeAgain(root, segments, tail);
  }

  /** The path `//` needs two more passes: it becomes `///`, then `/`. */
  lemma BareSlashesDrift()
    ensures PathOf("//") == Ok("///") && PathOf("///") == Ok("/") && PathOf("/") == Ok("/")
  {
    assert IsLasting("/") by { assert "/"[1..] == ""; }
    assert IsLasting("//") by { assert "//"[1..] == "/"; }
    assert IsLasting("///") by { assert "///"[1..] == "//"; }
    LastingPathIsUnescaped("/");
    LastingPathIsUnescaped("//");
    LastingPathIsUnescaped("///");
    CleanBareSlashes();
    QuoteLeavesSafe("/");
    QuoteLeavesSafe("///");
  }

  // ------------------------------------------------- characters and ends, spelled out

  /** Quoting leaves these characters alone and escapes the octets of all others. */
  lemma SafeCharactersAre(c: char)
    ensures IsPathSafe(c) <==>
      || c in "ABCDEFGHIJKLMNOPQRSTUVWXYZ" || c in "abcdefghijklmnopqrstuvwxyz"
      || c in "0123456789-._~" || c in "/%:@!$&'()*+,;="
    ensures QuoteChar(c) == if IsPathSafe(c) then [c] else EscapeOctets(Utf8(c))
  {
    UnreservedAre(c);
  }

  /** A slash at the end stays, where there is a segment; the root is that of the path. */
  lemma CleanKeepsEnds(path: string)
    requires path != "" && path[0] == '/' && Segments(path) != []
    ensures EndsWithSlash(Clean(path)) <==> EndsWithSlash(path)
    ensures |Clean(path)| >= 2 && Clean(path)[0] == '/'
    ensures Clean(path)[1] == '/' <==> |path| >= 2 && path[1] == '/' && (|path| == 2 || path[2] != '/')
    ensures Segments(Clean(path)) == Segments(path)
  {
    var tail := CleanIsAShape(path);
    ReadShape(Root(path), Segments(path), tail);
    SegmentsOfShape(Root(path), Segments(path), tail);
    JoinEnds(Segments(path));
    assert Clean(path)[|Root(path)|] == Join(Segments(path), '/')[0];
  }

  lemma RootIsAccepted()
    ensures PathOf("").Ok?
  {
    assert IsLasting("/") by { assert "/"[1..] == ""; }
    LastingPathIsUnescaped("/");
    assert Unescaped("") == Unescaped("/");
  }

  /** Replacing escapes neither adds nor removes such characters. */
  lemma {:induction false} SubstituteKeeps(path: string, c: char)
    requires WellEscaped(path) && c in {'\\', '\0'}
    ensures c in Substitute(path) <==> c in path
  {
    if path == "" {
    } else if path[0] == '%' {
      SubstituteKeeps(path[3..], c);
      assert path == [path[0], path[1], path[2]] + path[3..];
    } else {
      SubstituteKeeps(path[1..], c);
      assert path == [path[0]] + path[1..];
    }
  }

  /** A path is accepted exactly if its escapes are and no backslash or null character
      stands in it. */
  lemma PathAcceptedIff(path: string)
    requires IsUrlPath(path)
    ensures PathOf(path).Ok? <==>
      && EscapesAreWhole(path) && WellEscaped(path) && !HasForbidden(path)
      && '\\' !in path && '\0' !in path
  {
    EscapesAcceptedIff(path);
    if path == "" {
      RootIsAccepted();
    } else if NormalizeEscapes(path).Ok? {
      SubstituteKeeps(path, '\\');
      SubstituteKeeps(path, '\0');
    }
  }
}
