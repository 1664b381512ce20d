/** Fresh names (exporters/run_data.py:282-289, 1590-1594; app/views.py:519-527):
    a base name is tried first, then the base with -2, -3 and so on. */
module Names {
  import opened Sequences
  import opened Decimals

  // -------------------------------------------------------- numbered suffixes

  function Suffix(n: nat): string {
    "-" + Decimal(n)
  }

  /** The number can be read off the end of a name, whatever comes before it. */
  lemma SuffixIsReadOff(x: string, m: nat, y: string, n: nat)
    requires x + Suffix(m) == y + Suffix(n)
    ensures m == n
  {
    ValueOfDecimal(m);
    ValueOfDecimal(n);
    var s := x + Suffix(m);
    DashBeforeDigits(x, m, s);
    DashBeforeDigits(y, n, s);
    if |Decimal(m)| == |Decimal(n)| { DecimalIsInjective(m, n); }
  }

  lemma {:induction false} DashBeforeDigits(x: string, m: nat, s: string)
    requires s == x + Suffix(m)
    ensures |s| == |x| + 1 + |Decimal(m)| && s[|x|] == '-' && s[|x| + 1..] == Decimal(m)
    ensures forall i :: |x| < i < |s| ==> IsDigit(s[i])
  {
    ValueOfDecimal(m);
    assert forall i :: |x| < i < |s| ==> s[i] == Decimal(m)[i - |x| - 1];
  }

  lemma {:induction false} DecimalGrows(m: nat, n: nat)
    requires m <= n
    ensures |Decimal(m)| <= |Decimal(n)|
  {
    if n >= 10 && m >= 10 { DecimalGrows(m / 10, n / 10); }
  }

  /** If `Name(j)` is taken for every `j` up to `k`, and different numbers give
      different names, then at least that many names are taken. */
  lemma TakenNamesBound(names: seq<string>, taken: set<string>)
    requires Distinct(names) && forall i :: 0 <= i < |names| ==> names[i] in taken
    ensures |names| <= |taken|
  {
    forall x | x in names
      ensures x in taken
    {
      var i :| 0 <= i < |names| && names[i] == x;
    }
    Pigeonhole(names, taken);
  }

  // ------------------------------------------------------------------- ids

  /** The k-th candidate for a base name. */
  function Candidate(base: string, k: nat): string {
    if k <= 1 then base else base + Suffix(k)
  }

  lemma CandidatesDiffer(base: string, j: nat, k: nat)
    requires 1 <= j < k
    ensures Candidate(base, j) != Candidate(base, k)
  {
    if j > 1 && Candidate(base, j) == Candidate(base, k) { SuffixIsReadOff(base, j, base, k); }
  }

  ghost predicate TakenUpTo(base: string, used: set<string>, k: nat) {
    forall j :: 1 <= j < k ==> Candidate(base, j) in used
  }

  /** So no more candidates than used names are tried in vain. */
  lemma TriesAreBounded(base: string, used: set<string>, k: nat)
    requires k >= 1 && TakenUpTo(base, used, k)
    ensures k <= |used| + 1
  {
    var tried := seq(k - 1, i requires 0 <= i < k - 1 => Candidate(base, i + 1));
    forall i, j | 0 <= i < j < |tried|
      ensures tried[i] != tried[j]
    {
      CandidatesDiffer(base, i + 1, j + 1);
    }
    TakenNamesBound(tried, used);
  }

  /** The first candidate number from `k` on that is free. */
  ghost function FirstFree(base: string, used: set<string>, k: nat): (n: nat)
    requires k >= 1 && TakenUpTo(base, used, k)
    ensures k <= n <= |used| + 1 && TakenUpTo(base, used, n) && Candidate(base, n) !in used
    decreases |used| + 1 - k
  {
    TriesAreBounded(base, used, k);
    if Candidate(base, k) !in used then k
    else
      TriesAreBounded(base, used, k + 1);
      FirstFree(base, used, k + 1)
  }

  ghost function UniqueName(base: string, used: set<string>): string {
    Candidate(base, FirstFree(base, used, 1))
  }

  /** The set of names handed out so far; `_unique_id` adds to it. */
  class Registry {
    var used: set<string>

    constructor (used: set<string>)
      ensures this.used == used
    {
      this.used := used;
    }

    /** Returns the first free candidate and records it. */
    method UniqueId(base: string) returns (candidate: string)
      modifies this
      ensures candidate == UniqueName(base, old(used))
      ensures candidate !in old(used) && used == old(used) + {candidate}
      ensures base !in old(used) ==> candidate == base
    {
      candidate := base;
      var counter := 2;
      while candidate in used
        invariant used == old(used) && counter >= 2 && candidate == Candidate(base, counter - 1)
        invariant TakenUpTo(base, used, counter - 1)
        invariant counter - 1 <= |used| + 1
        invariant FirstFree(base, used, 1) == FirstFree(base, used, counter - 1)
        decreases |used| + 2 - counter
      {
        TriesAreBounded(base, used, counter);
        candidate := base + "-" + Decimal(counter);
        assert candidate == base + Suffix(counter);
        counter := counter + 1;
      }
      used := used + {candidate};
    }

    /** The slug of a page; `fold` is case folding. */
    method SlugFor(fold: string -> string, path: string) returns (slug: string)
      modifies this
      ensures slug == UniqueName(PathSlug(fold, path), old(used)) && slug !in old(used) && used == old(used) + {slug}
    {
      slug := UniqueId(PathSlug(fold, path));
    }

    /** The slugs of the content assets, page by page on one registry: no two are
        equal. */
    method SlugAll(fold: string -> string, paths: seq<string>) returns (slugs: seq<string>)
      modifies this
      ensures slugs == Issue(PathSlugs(fold, paths), old(used)) && used == old(used) + Elements(slugs)
      ensures AreFresh(slugs, PathSlugs(fold, paths), old(used))
    {
      slugs := [];
      ghost var was, bases := used, PathSlugs(fold, paths);
      for i := 0 to |paths|
        invariant IssuedUpTo(slugs, used, bases, was, i)
      {
        IssuedOneMore(slugs, used, bases, was, i);
        var slug := SlugFor(fold, paths[i]);
        slugs := slugs + [slug];
      }
      assert bases[..|paths|] == bases;
      IssuedIdsAreFresh(bases, was);
    }
  }

  /** The ids of successive calls on one registry. */
  ghost function Issue(bases: seq<string>, used: set<string>): (ids: seq<string>)
    ensures |ids| == |bases|
  {
    if bases == [] then []
    else
      var n := |bases| - 1;
      var earlier := Issue(bases[..n], used);
      earlier + [UniqueName(bases[n], used + Elements(earlier))]
  }

  /** The registry after the first `i` calls. */
  ghost predicate IssuedUpTo(ids: seq<string>, used: set<string>, bases: seq<string>, was: set<string>, i: nat) {
    i <= |bases| && ids == Issue(bases[..i], was) && used == was + Elements(ids)
  }

  lemma IssuedOneMore(ids: seq<string>, used: set<string>, bases: seq<string>, was: set<string>, i: nat)
    requires i < |bases| && IssuedUpTo(ids, used, bases, was, i)
    ensures IssuedUpTo(ids + [UniqueName(bases[i], used)], used + {UniqueName(bases[i], used)}, bases, was, i + 1)
  {
    assert bases[..i + 1][..i] == bases[..i];
  }

  /** The base itself, or the base with a number. */
  ghost predicate IsNumbered(name: string, base: string) {
    exists k: nat :: k >= 1 && name == Candidate(base, k)
  }

  ghost predicate AreFresh(ids: seq<string>, bases: seq<string>, used: set<string>) {
    && |ids| == |bases| && Distinct(ids)
    && forall i :: 0 <= i < |ids| ==> ids[i] !in used && IsNumbered(ids[i], bases[i])
  }

  lemma UniqueNameIsFresh(base: string, used: set<string>, ids: seq<string>)
    ensures var name := UniqueName(base, used + Elements(ids)); name !in used && name !in ids && IsNumbered(name, base)
  {
    var name := UniqueName(base, used + Elements(ids));
    assert name in ids ==> name in Elements(ids);
  }

  lemma OneMoreFresh(ids: seq<string>, bases: seq<string>, used: set<string>, last: string, base: string)
    requires AreFresh(ids, bases, used) && last !in used && last !in ids && IsNumbered(last, base)
    ensures AreFresh(ids + [last], bases + [base], used)
  {
  }

  /** Successive ids differ from each other and from every name used before;
      each is its base, or its base with a number. */
  lemma {:induction false} IssuedIdsAreFresh(bases: seq<string>, used: set<string>)
    ensures AreFresh(Issue(bases, used), bases, used)
  {
    if bases != [] {
      var front, last := bases[..|bases| - 1], bases[|bases| - 1];
      var earlier := Issue(front, used);
      IssuedIdsAreFresh(front, used);
      UniqueNameIsFresh(last, used, earlier);
      OneMoreFresh(earlier, front, used, UniqueName(last, used + Elements(earlier)), last);
      assert front + [last] == bases;
    }
  }

  /** The base, then the base with -2, -3 and so on. */
  lemma {:induction false} CandidateTells(base: string, k: nat)
    ensures Candidate(base, 1) == base
    ensures k >= 2 ==> Candidate(base, k) == base + ("-" + Decimal(k))
  {
  }

  // ----------------------------------------------------------------- slugs

  predicate IsSlugChar(c: char) {
    'a' <= c <= 'z' || '0' <= c <= '9' || c == '-'
  }

  predicate IsSlugText(s: string) {
    forall i :: 0 <= i < |s| ==> IsSlugChar(s[i])
  }

  lemma SlugCharsAre(c: char)
    ensures IsSlugChar(c) <==> c in "abcdefghijklmnopqrstuvwxyz0123456789-"
  {
  }

  /** Every run of other characters becomes one dash. */
  function Collapse(s: string, inRun: bool): (t: string)
    ensures IsSlugText(t)
  {
    if s == "" then ""
    else if IsSlugChar(s[0]) then [s[0]] + Collapse(s[1..], false)
    else if inRun then Collapse(s[1..], true)
    else "-" + Collapse(s[1..], true)
  }

  function StripLeft(s: string, c: char): string {
    if s != "" && s[0] == c then StripLeft(s[1..], c) else s
  }

  function StripRight(s: string, c: char): string {
    if s != "" && s[|s| - 1] == c then StripRight(s[..|s| - 1], c) else s
  }

  function StripOff(s: string, c: char): string {
    StripRight(StripLeft(s, c), c)
  }

  lemma {:induction false} SlugTextStays(s: string, inRun: bool)
    requires IsSlugText(s)
    ensures Collapse(s, inRun) == s
  {
    if s != "" { SlugTextStays(s[1..], false); }
  }

  lemma {:induction false} RestOfRun(run: string, b: string)
    requires forall i :: 0 <= i < |run| ==> !IsSlugChar(run[i])
    requires b != "" ==> IsSlugChar(b[0])
    ensures Collapse(run + b, true) == Collapse(b, false)
  {
    if run == "" {
      assert run + b == b;
    } else {
      RestOfRun(run[1..], b);
      assert (run + b)[1..] == run[1..] + b;
    }
  }

  /** A run of other characters between slug text becomes one dash. */
  lemma {:induction false} RunBecomesADash(a: string, run: string, b: string)
    requires IsSlugText(a) && run != "" && (b != "" ==> IsSlugChar(b[0]))
    requires forall i :: 0 <= i < |run| ==> !IsSlugChar(run[i])
    ensures Collapse(a + (run + b), false) == a + ("-" + Collapse(b, false))
  {
    if a == "" {
      RestOfRun(run[1..], b);
      assert (run + b)[1..] == run[1..] + b && a + (run + b) == run + b;
    } else {
      RunBecomesADash(a[1..], run, b);
      assert (a + (run + b))[1..] == a[1..] + (run + b);
    }
  }

  /** What is stripped off on either side is that character, and nothing else is. */
  lemma {:induction false} StripOffIs(s: string, c: char) returns (a: string, b: string)
    ensures s == a + StripOff(s, c) + b
    ensures (forall i :: 0 <= i < |a| ==> a[i] == c) && forall i :: 0 <= i < |b| ==> b[i] == c
    ensures var t := StripOff(s, c); t != "" ==> t[0] != c && t[|t| - 1] != c
  {
    a := StrippedLeft(s, c);
    b := StrippedRight(StripLeft(s, c), c);
    StripLeftIsAPart(s, c);
  }

  lemma {:induction false} StrippedLeft(s: string, c: char) returns (a: string)
    ensures s == a + StripLeft(s, c) && forall i :: 0 <= i < |a| ==> a[i] == c
  {
    a := "";
    if s != "" && s[0] == c {
      var rest := StrippedLeft(s[1..], c);
      a := [c] + rest;
    }
  }

  lemma {:induction false} StrippedRight(s: string, c: char) returns (b: string)
    ensures s == StripRight(s, c) + b && forall i :: 0 <= i < |b| ==> b[i] == c
    ensures var t := StripRight(s, c); t <= s && (t != "" ==> t[|t| - 1] != c)
  {
    b := "";
    if s != "" && s[|s| - 1] == c {
      var rest := StrippedRight(s[..|s| - 1], c);
      b := rest + [c];
    }
  }

  lemma {:induction false} StripOffIsAPart(s: string, c: char)
    ensures |StripOff(s, c)| <= |s| && (StripOff(s, c) != "" ==> StripOff(s, c)[0] != c)
    ensures IsSlugText(s) ==> IsSlugText(StripOff(s, c))
  {
    StripLeftIsAPart(s, c);
    StripRightIsAPart(StripLeft(s, c), c);
  }

  lemma {:induction false} StripLeftIsAPart(s: string, c: char)
    ensures |StripLeft(s, c)| <= |s| && (StripLeft(s, c) != "" ==> StripLeft(s, c)[0] != c)
    ensures IsSlugText(s) ==> IsSlugText(StripLeft(s, c))
  {
    if s != "" && s[0] == c { StripLeftIsAPart(s[1..], c); }
  }

  lemma {:induction false} StripRightIsAPart(s: string, c: char)
    ensures StripRight(s, c) <= s
  {
    if s != "" && s[|s| - 1] == c { StripRightIsAPart(s[..|s| - 1], c); }
  }

  function DashForSlash(s: string): (t: string)
    ensures |t| == |s| && forall i :: 0 <= i < |s| ==> t[i] == if s[i] == '/' then '-' else s[i]
  {
    if s == "" then "" else [if s[0] == '/' then '-' else s[0]] + DashForSlash(s[1..])
  }

  /** Python's `s[:n]`: a negative end counts from the back. */
  function UpTo(s: string, n: int): (t: string)
    ensures t <= s && |t| == (if n > |s| then |s| else if n >= 0 then n else if |s| + n >= 0 then |s| + n else 0)
  {
    s[..if n > |s| then |s| else if n >= 0 then n else if |s| + n >= 0 then |s| + n else 0]
  }

  /** The base slug of a page path; `fold` is case folding. */
  function PathSlug(fold: string -> string, path: string): string {
    var slug := StripOff(Collapse(DashForSlash(fold(StripOff(path, '/'))), false), '-');
    UpTo(if slug == "" then "homepage" else slug, 60)
  }

  function PathSlugs(fold: string -> string, paths: seq<string>): (slugs: seq<string>)
    ensures |slugs| == |paths| && forall i :: 0 <= i < |paths| ==> slugs[i] == PathSlug(fold, paths[i])
  {
    seq(|paths|, i requires 0 <= i < |paths| => PathSlug(fold, paths[i]))
  }

  /** A path whose segments, joined by dashes, are slug text already is its own slug,
      up to sixty characters; one with nothing to show is the home page's. */
  lemma PathSlugTells(fold: string -> string, path: string)
    ensures var inner := DashForSlash(fold(StripOff(path, '/')));
      && (IsSlugText(inner) && inner != "" && inner[0] != '-' && inner[|inner| - 1] != '-' ==>
            PathSlug(fold, path) <= inner && |PathSlug(fold, path)| == if |inner| < 60 then |inner| else 60)
      && ((forall i :: 0 <= i < |inner| ==> inner[i] == '-') ==> PathSlug(fold, path) == "homepage")
  {
    var inner := DashForSlash(fold(StripOff(path, '/')));
    if IsSlugText(inner) { SlugTextStays(inner, false); }
    if inner != "" && inner[0] != '-' && inner[|inner| - 1] != '-' { NothingToStrip(inner, '-'); }
    if forall i :: 0 <= i < |inner| ==> inner[i] == '-' {
      SlugTextStays(inner, false);
      AllIsStripped(inner, '-');
    }
  }

  lemma NothingToStrip(s: string, c: char)
    requires s != "" && s[0] != c && s[|s| - 1] != c
    ensures StripOff(s, c) == s
  {
  }

  lemma {:induction false} AllIsStripped(s: string, c: char)
    requires forall i :: 0 <= i < |s| ==> s[i] == c
    ensures StripOff(s, c) == ""
  {
    if s != "" { AllIsStripped(s[1..], c); }
  }

  /** A path slug is not empty, has at most 60 characters, all of them lower-case
      letters, digits or dashes, and does not start with a dash; so is a numbered
      one, but for its length. */
  lemma PathSlugText(fold: string -> string, path: string, k: nat)
    ensures var slug := PathSlug(fold, path); 0 < |slug| <= 60 && IsSlugText(slug) && slug[0] != '-'
    ensures var name := Candidate(PathSlug(fold, path), k);
      IsSlugText(name) && name[0] != '-' && |name| <= 60 + |Suffix(k)|
  {
    StripOffIsAPart(Collapse(DashForSlash(fold(StripOff(path, '/'))), false), '-');
    ValueOfDecimal(k);
  }

  // --------------------------------------------------- slugs of limited length

  /** The base of `_unique_slug`; `slug` is the slugified value, possibly empty. */
  function LimitedBase(slug: string, maximum: int): string {
    var kept := StripOff(UpTo(if slug == "" then "project" else slug, maximum), '-');
    if kept == "" then "project" else kept
  }

  function Shortened(base: string, maximum: int, k: nat): string {
    if k <= 1 then base else UpTo(base, maximum - |Suffix(k)|) + Suffix(k)
  }

  /** A slug that needs no trimming and fits is its own base; without one, the base is
      as much of the fallback as fits. */
  lemma LimitedBaseTells(slug: string, maximum: int)
    ensures slug != "" && |slug| <= maximum && slug[0] != '-' && slug[|slug| - 1] != '-' ==>
      LimitedBase(slug, maximum) == slug
    ensures slug == "" && maximum > 0 ==>
      LimitedBase(slug, maximum) <= "project" && |LimitedBase(slug, maximum)| == if maximum < 7 then maximum else 7
  {
    if slug != "" && slug[0] != '-' && slug[|slug| - 1] != '-' { NothingToStrip(slug, '-'); }
    if maximum > 0 {
      var kept := UpTo("project", maximum);
      assert kept[|kept| - 1] == "project"[|kept| - 1];
      NothingToStrip(kept, '-');
    }
  }

  /** The first candidate is the base; a later one its number after a dash, behind as
      much of the base as leaves room for it. */
  lemma {:induction false} ShortenedTells(base: string, maximum: int, k: nat)
    ensures Shortened(base, maximum, 1) == base
    ensures k >= 2 && |Decimal(k)| + 1 <= maximum ==>
      var room := maximum - |Decimal(k)| - 1;
      Shortened(base, maximum, k) == base[..if |base| <= room then |base| else room] + ("-" + Decimal(k))
  {
  }

  lemma ShortenedDiffer(base: string, maximum: int, j: nat, k: nat)
    requires 2 <= j < k
    ensures Shortened(base, maximum, j) != Shortened(base, maximum, k)
  {
    if Shortened(base, maximum, j) == Shortened(base, maximum, k) {
      SuffixIsReadOff(UpTo(base, maximum - |Suffix(j)|), j, UpTo(base, maximum - |Suffix(k)|), k);
    }
  }

  ghost predicate SlugsTakenUpTo(base: string, maximum: int, taken: set<string>, k: nat) {
    forall j :: 1 <= j < k ==> Shortened(base, maximum, j) in taken
  }

  /** A shortened candidate may repeat the base, so one suffix more is tried. */
  lemma SlugTriesAreBounded(base: string, maximum: int, taken: set<string>, k: nat)
    requires k >= 2 && SlugsTakenUpTo(base, maximum, taken, k)
    ensures k <= |taken| + 2
  {
    var tried := seq(k - 2, i requires 0 <= i < k - 2 => Shortened(base, maximum, i + 2));
    forall i, j | 0 <= i < j < |tried|
      ensures tried[i] != tried[j]
    {
      ShortenedDiffer(base, maximum, i + 2, j + 2);
    }
    TakenNamesBound(tried, taken);
  }

  /** Returns the first free slug, after at most as many suffixes as there are
      slugs taken, and one more. */
  method UniqueSlug(taken: set<string>, slug: string, maximum: int) returns (candidate: string, ghost k: nat)
    ensures 1 <= k <= |taken| + 2 && candidate == Shortened(LimitedBase(slug, maximum), maximum, k)
    ensures candidate !in taken && SlugsTakenUpTo(LimitedBase(slug, maximum), maximum, taken, k)
  {
    var base := LimitedBase(slug, maximum);
    candidate := base;
    var counter := 2;
    while candidate in taken
      invariant counter >= 2 && candidate == Shortened(base, maximum, counter - 1)
      invariant SlugsTakenUpTo(base, maximum, taken, counter - 1)
      invariant counter <= |taken| + 3
      decreases |taken| + 3 - counter
    {
      SlugTriesAreBounded(base, maximum, taken, counter);
      var suffix := "-" + Decimal(counter);
      candidate := UpTo(base, maximum - |suffix|) + suffix;
      counter := counter + 1;
    }
    k := counter - 1;
  }

  /** A slug keeps to the maximum exactly when its suffix does; the base itself
      exceeds it only as the seven letters of the fallback. */
  lemma SlugFitsIff(slug: string, maximum: int, k: nat)
    requires k >= 1
    ensures var base := LimitedBase(slug, maximum);
      |Shortened(base, maximum, k)| <= maximum <==> if k == 1 then |base| <= maximum else |Suffix(k)| <= maximum
    ensures maximum >= 0 ==> |LimitedBase(slug, maximum)| <= maximum || LimitedBase(slug, maximum) == "project"
  {
    StripOffIsAPart(UpTo(if slug == "" then "project" else slug, maximum), '-');
  }

  /** What a caller can check: with room for the fallback and for the largest
      suffix that can be needed, the slug fits. */
  lemma SlugFits(taken: set<string>, slug: string, maximum: int, k: nat)
    requires 1 <= k <= |taken| + 2 && 7 <= maximum && |Suffix(|taken| + 2)| <= maximum
    ensures |Shortened(LimitedBase(slug, maximum), maximum, k)| <= maximum
  {
    SlugFitsIff(slug, maximum, k);
    DecimalGrows(k, |taken| + 2);
  }

  /** Without that room it need not: one character cannot hold a suffix, and
      none cannot hold the fallback. */
  lemma ShortMaximumIsExceeded(slug: string)
    ensures Shortened("a", 1, 2) == "-2" && LimitedBase("a", 1) == "a"
    ensures LimitedBase(slug, 0) == "project"
  {
    assert UpTo("a", 1) == "a" && StripLeft("a", '-') == "a" && StripRight("a", '-') == "a";
    assert Decimal(2) == "2" && UpTo("a", -1) == "";
    assert UpTo(if slug == "" then "project" else slug, 0) == "";
    assert StripLeft("", '-') == "" && StripRight("", '-') == "";
  }
}
