/** Where a failing URL should lead (exporters/run_data.py:941-945, 2789-2845):
    the crawled page with the best score above the confidence floor, whatever
    the order of the inventory.  Scores are exact; rounding is to four decimals,
    ties to even. */
module RedirectDestination {
  import opened Outcomes
  import opened Sequences
  import opened Text
  import opened Overlap

  datatype Page = Page(url: string, title: string, h1: string)

  /** URL paths, token sets and topic labels. */
  datatype Texts = Texts(path: string -> string, tokens: string -> set<string>, topic: Page -> string)

  datatype Signals = Signals(path: real, title: real, bonus: real)

  // ---------------------------------------------------------------- scores

  /** Rounding to four decimals, ties to even. */
  function Round4(x: real): real {
    var y := x * 10000.0;
    var n := y.Floor;
    var rest := y - n as real;
    (if rest < 0.5 || (rest == 0.5 && n % 2 == 0) then n else n + 1) as real / 10000.0
  }

  lemma RoundingKeepsOrder(x: real, y: real)
    requires x <= y
    ensures Round4(x) <= Round4(y)
  {
    var a, b := (x * 10000.0).Floor, (y * 10000.0).Floor;
    assert a <= b;
  }

  lemma RoundedStays(k: int)
    ensures Round4(k as real / 10000.0) == k as real / 10000.0
  {
    var y := k as real / 10000.0 * 10000.0;
    assert y == k as real;
    assert y.Floor == k;
  }

  /** The value of Round4 in ten-thousandths. */
  function Steps(x: real): (k: int)
    ensures Round4(x) == k as real / 10000.0
  {
    var y := x * 10000.0;
    var n := y.Floor;
    var rest := y - n as real;
    if rest < 0.5 || (rest == 0.5 && n % 2 == 0) then n else n + 1
  }

  /** Rounding takes a nearest multiple of a ten-thousandth, an even one if two are
      equally near. */
  lemma RoundingIsNearest(x: real) returns (k: int)
    ensures Round4(x) * 10000.0 == k as real && -0.5 <= x * 10000.0 - k as real <= 0.5
    ensures x * 10000.0 - k as real in {-0.5, 0.5} ==> k % 2 == 0
  {
    k := Steps(x);
  }

  lemma RoundingIsIdempotent(x: real)
    ensures Round4(Round4(x)) == Round4(x)
  {
    RoundedStays(Steps(x));
  }

  function StripRightSlashes(s: string): string {
    if s != "" && s[|s| - 1] == '/' then StripRightSlashes(s[..|s| - 1]) else s
  }

  /** The candidate is an ancestor of the source in the path. */
  predicate IsAncestor(candidate: string, source: string) {
    var parent := StripRightSlashes(candidate);
    parent != "" && parent + "/" <= source
  }

  lemma {:induction false} StrippedSlashes(s: string)
    ensures StripRightSlashes(s) <= s && !(StripRightSlashes(s) != "" && s[|StripRightSlashes(s)| - 1] == '/')
    ensures forall i :: |StripRightSlashes(s)| <= i < |s| ==> s[i] == '/'
  {
    if s != "" && s[|s| - 1] == '/' { StrippedSlashes(s[..|s| - 1]); }
  }

  /** The source continues, after a slash, the candidate without its last slashes. */
  ghost predicate Continues(candidate: string, source: string, n: nat) {
    && 0 < n <= |candidate| && n < |source| && candidate[n - 1] != '/' && source[n] == '/'
    && candidate[..n] == source[..n] && forall i :: n <= i < |candidate| ==> candidate[i] == '/'
  }

  lemma AncestorIff(candidate: string, source: string)
    ensures IsAncestor(candidate, source) <==> exists n: nat :: Continues(candidate, source, n)
  {
    var parent := StripRightSlashes(candidate);
    StrippedSlashes(candidate);
    if IsAncestor(candidate, source) {
      assert source[..|parent| + 1] == parent + "/";
      assert Continues(candidate, source, |parent|);
    }
    if n: nat :| Continues(candidate, source, n) {
      assert parent == candidate[..n];
      assert source[..n + 1] == parent + "/";
    }
  }

  function SignalsOf(texts: Texts, source: string, candidate: Page): Signals {
    var tokens := texts.tokens(source);
    Signals(Jaccard(tokens, texts.tokens(texts.path(candidate.url))),
            Jaccard(tokens, texts.tokens(if candidate.title != "" then candidate.title else candidate.h1)),
            if IsAncestor(texts.path(candidate.url), source) then 0.1 else 0.0)
  }

  function Score(texts: Texts, source: string, candidate: Page): real {
    var s := SignalsOf(texts, source, candidate);
    Round4(s.path * 0.55 + s.title * 0.35 + s.bonus)
  }

  /** The score is eleven parts of path overlap, seven of overlap with the title or,
      if there is none, with the heading, and two for an ancestor, in twentieths. */
  lemma ScoreIsWeighted(texts: Texts, source: string, candidate: Page)
    ensures var path := texts.path(candidate.url);
      var heading := if candidate.title == "" then candidate.h1 else candidate.title;
      var p := Jaccard(texts.tokens(source), texts.tokens(path));
      var t := Jaccard(texts.tokens(source), texts.tokens(heading));
      var ancestor := if exists n: nat :: Continues(path, source, n) then 2.0 else 0.0;
      && Score(texts, source, candidate) == Round4((11.0 * p + 7.0 * t + ancestor) / 20.0)
      && SignalsOf(texts, source, candidate) == Signals(p, t, ancestor / 20.0)
  {
    AncestorIff(texts.path(candidate.url), source);
    var s := SignalsOf(texts, source, candidate);
    assert s.path * 0.55 + s.title * 0.35 + s.bonus == (11.0 * s.path + 7.0 * s.title + 20.0 * s.bonus) / 20.0;
  }

  /** Scores are confidences: between 0 and 1, and not rounded any further. */
  lemma ScoreIsAConfidence(texts: Texts, source: string, candidate: Page)
    ensures 0.0 <= Score(texts, source, candidate) <= 1.0
    ensures Round4(Score(texts, source, candidate)) == Score(texts, source, candidate)
  {
    var tokens := texts.tokens(source);
    JaccardIsAShare(tokens, texts.tokens(texts.path(candidate.url)));
    JaccardIsAShare(tokens, texts.tokens(if candidate.title != "" then candidate.title else candidate.h1));
    var s := SignalsOf(texts, source, candidate);
    var sum := s.path * 0.55 + s.title * 0.35 + s.bonus;
    assert 0.0 <= sum <= 1.0;
    RoundingKeepsOrder(0.0, sum);
    RoundingKeepsOrder(sum, 1.0);
    RoundingIsIdempotent(sum);
    assert Round4(0.0) == 0.0 && Round4(1.0) == 1.0;
  }

  // ---------------------------------------------------------------- choice

  datatype Choice = Choice(best: Option<Page>, score: real, signals: Signals)

  const NOTHING := Choice(None, 0.0, Signals(0.0, 0.0, 0.0))

  predicate Improves(choice: Choice, score: real, candidate: Page) {
    score > choice.score || (score == choice.score && choice.best.Some? && Less(candidate.url, choice.best.value.url))
  }

  /** One candidate looked at. */
  function Consider(texts: Texts, source: string, choice: Choice, candidate: Page): Choice {
    if texts.path(candidate.url) == source then choice
    else
      var score := Score(texts, source, candidate);
      if Improves(choice, score, candidate) then Choice(Some(candidate), score, SignalsOf(texts, source, candidate))
      else choice
  }

  function Choose(texts: Texts, source: string, inventory: seq<Page>): Choice {
    if inventory == [] then NOTHING
    else
      var n := |inventory| - 1;
      Consider(texts, source, Choose(texts, source, inventory[..n]), inventory[n])
  }

  /** A page that could be chosen: on another path, with a positive score. */
  predicate IsEligible(texts: Texts, source: string, candidate: Page) {
    texts.path(candidate.url) != source && Score(texts, source, candidate) > 0.0
  }

  /** `a` is at least as good as `b`: a higher score, or the same and no larger URL. */
  predicate NotWorse(texts: Texts, source: string, a: Page, b: Page) {
    var s, t := Score(texts, source, a), Score(texts, source, b);
    s > t || (s == t && !Less(b.url, a.url))
  }

  ghost predicate IsBest(texts: Texts, source: string, pool: set<Page>, best: Page) {
    && best in pool && IsEligible(texts, source, best)
    && forall x :: x in pool && IsEligible(texts, source, x) ==> NotWorse(texts, source, best, x)
  }

  /** The choice made of a pool of pages: none if none is eligible. */
  ghost predicate IsChoice(texts: Texts, source: string, pool: set<Page>, choice: Choice) {
    match choice.best
    case None => choice == NOTHING && forall x :: x in pool ==> !IsEligible(texts, source, x)
    case Some(best) =>
      && IsBest(texts, source, pool, best)
      && choice.score == Score(texts, source, best) && choice.signals == SignalsOf(texts, source, best)
  }

  lemma NotWorseIsTransitive(texts: Texts, source: string, a: Page, b: Page, c: Page)
    requires NotWorse(texts, source, a, b) && NotWorse(texts, source, b, c)
    ensures NotWorse(texts, source, a, c)
  {
    LessIsTotal(a.url, b.url);
    LessIsTotal(b.url, c.url);
    if Less(a.url, b.url) && Less(b.url, c.url) { LessIsTransitive(a.url, b.url, c.url); }
    LessIsTotal(a.url, c.url);
  }

  lemma ConsiderKeepsChoice(texts: Texts, source: string, pool: set<Page>, choice: Choice, candidate: Page)
    requires IsChoice(texts, source, pool, choice)
    ensures IsChoice(texts, source, pool + {candidate}, Consider(texts, source, choice, candidate))
  {
    ScoreIsAConfidence(texts, source, candidate);
    LessIsTotal(candidate.url, candidate.url);
    if IsEligible(texts, source, candidate) && choice.best.Some? {
      var best := choice.best.value;
      LessIsTotal(candidate.url, best.url);
      if Improves(choice, choice.score, candidate) || Score(texts, source, candidate) > choice.score {
        forall x | x in pool && IsEligible(texts, source, x) && NotWorse(texts, source, candidate, best)
          ensures NotWorse(texts, source, candidate, x)
        {
          NotWorseIsTransitive(texts, source, candidate, best, x);
        }
      }
    }
  }

  /** The loop's choice is the best eligible page of the inventory. */
  lemma {:induction false} ChooseIsChoice(texts: Texts, source: string, inventory: seq<Page>)
    ensures IsChoice(texts, source, Elements(inventory), Choose(texts, source, inventory))
  {
    if inventory != [] {
      var n := |inventory| - 1;
      ChooseIsChoice(texts, source, inventory[..n]);
      var pool := Elements(inventory[..n]);
      ConsiderKeepsChoice(texts, source, pool, Choose(texts, source, inventory[..n]), inventory[n]);
      assert Elements(inventory) == pool + {inventory[n]};
    }
  }

  /** No page twice: a URL determines its page. */
  ghost predicate IsDuplicateFree(pool: set<Page>) {
    forall x, y :: x in pool && y in pool && x.url == y.url ==> x == y
  }

  /** A pool of pages leaves no choice: score and URL are determined, and so is
      the page when no URL occurs with two different contents. */
  lemma ChoiceIsUnique(texts: Texts, source: string, pool: set<Page>, a: Choice, b: Choice)
    requires IsChoice(texts, source, pool, a) && IsChoice(texts, source, pool, b)
    ensures a.score == b.score && (a.best.Some? <==> b.best.Some?)
    ensures a.best.Some? ==> a.best.value.url == b.best.value.url
    ensures IsDuplicateFree(pool) ==> a == b
  {
    if a.best.Some? && b.best.Some? { LessIsTotal(a.best.value.url, b.best.value.url); }
  }

  // ---------------------------------------------------------------- answer

  const FLOOR := 0.35

  datatype Destination =
    | NoMatch(confidence: real)
    | Match(target: string, confidence: real, anchor: string, signals: Signals)

  function Answer(texts: Texts, choice: Choice): Destination {
    if choice.best.None? || choice.score < FLOOR then NoMatch(Round4(choice.score))
    else Match(choice.best.value.url, Round4(choice.score), texts.topic(choice.best.value), choice.signals)
  }

  /** `_redirect_destination`: the loop over the inventory and its answer. */
  method Destine(texts: Texts, url: string, inventory: seq<Page>) returns (destination: Destination)
    ensures destination == Answer(texts, Choose(texts, texts.path(url), inventory))
  {
    var source := texts.path(url);
    var best: Option<Page>, bestScore, bestSignals := None, 0.0, Signals(0.0, 0.0, 0.0);
    for i := 0 to |inventory|
      invariant Choice(best, bestScore, bestSignals) == Choose(texts, source, inventory[..i])
    {
      var candidate := inventory[i];
      assert inventory[..i + 1][..i] == inventory[..i];
      if texts.path(candidate.url) != source {
        var score := Score(texts, source, candidate);
        if score > bestScore || (score == bestScore && best.Some? && Less(candidate.url, best.value.url)) {
          best, bestScore, bestSignals := Some(candidate), score, SignalsOf(texts, source, candidate);
        }
      }
    }
    assert inventory[..|inventory|] == inventory;
    destination := Answer(texts, Choice(best, bestScore, bestSignals));
  }

  /** The answer to a query, as a function. */
  function DestinationOf(texts: Texts, url: string, inventory: seq<Page>): Destination {
    Answer(texts, Choose(texts, texts.path(url), inventory))
  }

  /** A target is found exactly if some page on another path reaches the floor. */
  lemma FoundIffFloorIsReached(texts: Texts, url: string, inventory: seq<Page>)
    ensures DestinationOf(texts, url, inventory).Match? <==>
      exists x :: x in inventory && texts.path(x.url) != texts.path(url) && Score(texts, texts.path(url), x) >= 0.35
  {
    var source := texts.path(url);
    ChooseIsChoice(texts, source, inventory);
    var choice := Choose(texts, source, inventory);
    forall x | x in inventory && texts.path(x.url) != source && Score(texts, source, x) >= FLOOR
      ensures choice.best.Some? && choice.score >= FLOOR
    {
      assert IsEligible(texts, source, x);
    }
  }

  /** What a match tells: a page of the inventory on another path, its topic, its score
      and its signals; no page on another path scores higher, or as high with a
      smaller URL. */
  lemma MatchTells(texts: Texts, url: string, inventory: seq<Page>) returns (best: Page)
    requires DestinationOf(texts, url, inventory).Match?
    ensures var source, found := texts.path(url), DestinationOf(texts, url, inventory);
      && best in inventory && texts.path(best.url) != source
      && found.target == best.url && found.anchor == texts.topic(best)
      && found.confidence == Score(texts, source, best) && found.signals == SignalsOf(texts, source, best)
      && forall x :: x in inventory && texts.path(x.url) != source ==>
           Score(texts, source, x) <= found.confidence
           && (Score(texts, source, x) == found.confidence ==> x.url == best.url || Less(best.url, x.url))
  {
    var source := texts.path(url);
    var choice := Choose(texts, source, inventory);
    ChooseIsChoice(texts, source, inventory);
    best := choice.best.value;
    ScoreIsAConfidence(texts, source, best);
    forall x | x in inventory && texts.path(x.url) != source
      ensures Score(texts, source, x) <= choice.score
      ensures Score(texts, source, x) == choice.score ==> x.url == best.url || Less(best.url, x.url)
    {
      assert IsEligible(texts, source, x) || Score(texts, source, x) <= 0.0;
      LessIsTotal(best.url, x.url);
    }
  }

  /** Inventories with the same pages give the same target and confidence, in
      whatever order; the same answer altogether when no URL has two contents. */
  lemma OrderDoesNotMatter(texts: Texts, url: string, a: seq<Page>, b: seq<Page>)
    requires forall x :: x in a <==> x in b
    ensures var left, right := DestinationOf(texts, url, a), DestinationOf(texts, url, b);
      && left.confidence == right.confidence && (left.Match? <==> right.Match?)
      && (left.Match? ==> left.target == right.target)
      && (IsDuplicateFree(Elements(a)) ==> left == right)
  {
    var source := texts.path(url);
    ChooseIsChoice(texts, source, a);
    ChooseIsChoice(texts, source, b);
    assert Elements(a) == Elements(b);
    ChoiceIsUnique(texts, source, Elements(a), Choose(texts, source, a), Choose(texts, source, b));
  }

  /** The confidence shown is the best score there is: nothing is rounded twice. */
  lemma ConfidenceIsTheBestScore(texts: Texts, url: string, inventory: seq<Page>)
    ensures var destination := DestinationOf(texts, url, inventory);
      && (forall x :: x in inventory && texts.path(x.url) != texts.path(url) ==>
        Score(texts, texts.path(url), x) <= destination.confidence)
      && (destination.confidence > 0.0 ==>
        exists x :: x in inventory && texts.path(x.url) != texts.path(url)
          && Score(texts, texts.path(url), x) == destination.confidence)
  {
    var source := texts.path(url);
    var choice := Choose(texts, source, inventory);
    ChooseIsChoice(texts, source, inventory);
    if choice.best.Some? {
      ScoreIsAConfidence(texts, source, choice.best.value);
    } else {
      assert Round4(0.0) == 0.0;
    }
    forall x | x in inventory && texts.path(x.url) != source
      ensures Score(texts, source, x) <= choice.score
    {
      ScoreIsAConfidence(texts, source, x);
      assert IsEligible(texts, source, x) || Score(texts, source, x) == 0.0;
    }
  }
}
