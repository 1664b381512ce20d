/** The finding of the title rule (audit_engine/rules.py:867-914): the clusters'
    pages, cluster by cluster, stored with exactly their number. */
module TitleFinding {
  import opened Outcomes
  import opened Sequences
  import opened Fractions
  import opened Overlap
  import opened Collection
  import opened Findings
  import DuplicateFields
  import TitleClusters

  /** Tokens of a page's title; library behaviour. */
  type Tokens = Page -> set<string>

  function View(tokens: Tokens, page: Page): TitleClusters.Page {
    TitleClusters.Page(page.url, page.status, tokens(page))
  }

  predicate IsCandidate(tokens: Tokens, page: Page) {
    TitleClusters.IsSuccess(View(tokens, page)) && tokens(page) != {}
  }

  lemma CandidateTells(tokens: Tokens, page: Page)
    ensures IsCandidate(tokens, page) <==>
      page.status.Some? && 200 <= page.status.value <= 299 && tokens(page) != {}
  {
  }

  function Views(tokens: Tokens, pages: seq<Page>): (views: seq<TitleClusters.Page>)
    ensures |views| == |pages| && forall i :: 0 <= i < |pages| ==> views[i] == View(tokens, pages[i])
  {
    seq(|pages|, i requires 0 <= i < |pages| => View(tokens, pages[i]))
  }

  function CandidatePages(tokens: Tokens, pages: seq<Page>): seq<Page> {
    if pages == [] then []
    else (if IsCandidate(tokens, pages[0]) then [pages[0]] else []) + CandidatePages(tokens, pages[1..])
  }

  lemma ViewsOfMore(tokens: Tokens, page: Page, pages: seq<Page>)
    ensures Views(tokens, [page] + pages) == [View(tokens, page)] + Views(tokens, pages)
    ensures Views(tokens, [] + pages) == Views(tokens, pages)
  {
    assert [] + pages == pages;
  }

  lemma {:induction false} CandidatesAreViews(tokens: Tokens, pages: seq<Page>)
    ensures TitleClusters.Candidates(Views(tokens, pages)) == Views(tokens, CandidatePages(tokens, pages))
  {
    if pages != [] {
      CandidatesAreViews(tokens, pages[1..]);
      assert Views(tokens, pages)[1..] == Views(tokens, pages[1..]);
      ViewsOfMore(tokens, pages[0], CandidatePages(tokens, pages[1..]));
    } else {
      assert Views(tokens, []) == [];
    }
  }

  lemma {:induction false} CandidatePagesAre(tokens: Tokens, pages: seq<Page>)
    ensures forall page :: page in CandidatePages(tokens, pages) <==> page in pages && IsCandidate(tokens, page)
    ensures Distinct(UrlsOf(pages)) ==> Distinct(UrlsOf(CandidatePages(tokens, pages)))
  {
    if pages != [] {
      CandidatePagesAre(tokens, pages[1..]);
      assert pages == [pages[0]] + pages[1..];
      assert UrlsOf(pages)[1..] == UrlsOf(pages[1..]);
      if Distinct(UrlsOf(pages)) { TailIsDistinct(tokens, pages); }
    }
  }

  lemma {:induction false} TailIsDistinct(tokens: Tokens, pages: seq<Page>)
    requires pages != [] && Distinct(UrlsOf(pages))
    requires forall page :: page in CandidatePages(tokens, pages[1..]) ==> page in pages[1..]
    requires Distinct(UrlsOf(pages[1..])) ==> Distinct(UrlsOf(CandidatePages(tokens, pages[1..])))
    ensures Distinct(UrlsOf(CandidatePages(tokens, pages)))
  {
    assert UrlsOf(pages[1..]) == UrlsOf(pages)[1..];
    var rest := CandidatePages(tokens, pages[1..]);
    forall i | 0 <= i < |rest|
      ensures rest[i].url != pages[0].url
    {
      assert rest[i] in pages[1..];
      var j :| 0 <= j < |pages[1..]| && pages[1..][j] == rest[i];
      assert UrlsOf(pages)[0] != UrlsOf(pages)[j + 1];
    }
  }

  // --------------------------------------------------------- the positions

  /** Disjoint ascending groups list every position once. */
  lemma {:induction false} FlattenIsDistinct(groups: seq<seq<nat>>, n: nat)
    requires TitleClusters.Ascending(n, groups)
    requires forall g, h, i :: 0 <= g < h < |groups| && i in groups[g] ==> i !in groups[h]
    ensures Distinct(TitleClusters.Flatten(groups))
    ensures forall k :: 0 <= k < |TitleClusters.Flatten(groups)| ==> TitleClusters.Flatten(groups)[k] < n
  {
    if groups != [] {
      var last := |groups| - 1;
      FlattenIsDistinct(groups[..last], n);
      var earlier := TitleClusters.Flatten(groups[..last]);
      forall k | 0 <= k < |earlier|
        ensures earlier[k] !in groups[last]
      {
        assert earlier[k] in earlier;
      }
    }
  }

  lemma {:induction false} AtIsDistinct(pages: seq<Page>, positions: seq<nat>)
    requires forall i :: 0 <= i < |positions| ==> positions[i] < |pages|
    requires Distinct(UrlsOf(pages)) && Distinct(positions)
    ensures Distinct(UrlsOf(DuplicateFields.At(pages, positions)))
  {
    var chosen := DuplicateFields.At(pages, positions);
    forall i, j | 0 <= i < j < |chosen|
      ensures UrlsOf(chosen)[i] != UrlsOf(chosen)[j]
    {
      assert positions[i] != positions[j];
      assert UrlsOf(pages)[positions[i]] != UrlsOf(pages)[positions[j]];
    }
  }

  // ----------------------------------------------------------------- the rule

  /** Another candidate, at another position, has a title that shares at least four
      fifths of the tokens of both. */
  ghost predicate HasRival(tokens: Tokens, candidates: seq<Page>, i: nat)
    requires i < |candidates|
  {
    exists j :: 0 <= j < |candidates| && j != i && Jaccard(tokens(candidates[i]), tokens(candidates[j])) >= 4.0 / 5.0
  }

  /** The pages the rule reports: each once, and exactly the candidates with a
      rival. */
  ghost predicate AreTheRivals(tokens: Tokens, candidates: seq<Page>, chosen: seq<Page>) {
    && Distinct(UrlsOf(chosen))
    && (forall page :: page in chosen ==> page in candidates)
    && (forall i :: 0 <= i < |candidates| ==> (candidates[i] in chosen <==> HasRival(tokens, candidates, i)))
  }

  lemma {:induction false} GroupsAreTheRivals(
    tokens: Tokens, candidates: seq<Page>, c: seq<set<string>>, groups: seq<seq<nat>>)
    requires Distinct(UrlsOf(candidates)) && TitleClusters.AreTheComponents(c, groups)
    requires |c| == |candidates| && forall i :: 0 <= i < |c| ==> c[i] == tokens(candidates[i]) && c[i] != {}
    requires forall k :: 0 <= k < |TitleClusters.Flatten(groups)| ==> TitleClusters.Flatten(groups)[k] < |candidates|
    requires Distinct(TitleClusters.Flatten(groups))
    ensures AreTheRivals(tokens, candidates, DuplicateFields.At(candidates, TitleClusters.Flatten(groups)))
  {
    var positions := TitleClusters.Flatten(groups);
    var chosen := DuplicateFields.At(candidates, positions);
    AtIsDistinct(candidates, positions);
    forall i | 0 <= i < |candidates|
      ensures candidates[i] in chosen <==> HasRival(tokens, candidates, i)
    {
      DuplicateFields.ChosenIff(candidates, positions, i);
      TitleClusters.ReportedIffTwin(c, groups, i);
    }
  }

  /** The whole rule over the pages of a crawl: exactly the successful pages whose
      title is similar to another one's are chosen, each once. */
  method Choose(tokens: Tokens, pages: seq<Page>) returns (chosen: seq<Page>)
    requires Distinct(UrlsOf(pages))
    ensures AreTheRivals(tokens, CandidatePages(tokens, pages), chosen)
  {
    var candidates := CandidatePages(tokens, pages);
    CandidatePagesAre(tokens, pages);
    CandidatesAreViews(tokens, pages);
    var views, groups := TitleClusters.Evaluate(Views(tokens, pages));
    FlattenIsDistinct(groups, |candidates|);
    assert forall i :: 0 <= i < |candidates| ==> candidates[i] in candidates;
    GroupsAreTheRivals(tokens, candidates, TitleClusters.TokenSets(views), groups);
    chosen := DuplicateFields.At(candidates, TitleClusters.Flatten(groups));
  }

  /** The rule as the others are run: over these pages it chooses what `Choose` does. */
  ghost predicate IsTitleRule(rule: Rule, tokens: Tokens, pages: seq<Page>) {
    rule.Chosen? && AreTheRivals(tokens, CandidatePages(tokens, pages), rule.choose(pages))
  }

  method TitleRule(id: string, category: string, tokens: Tokens, pages: seq<Page>) returns (rule: Rule)
    requires Distinct(UrlsOf(pages))
    ensures IsTitleRule(rule, tokens, pages) && rule.id == id && rule.category == category
  {
    var chosen := Choose(tokens, pages);
    rule := Rule.Chosen(id, category, (given: seq<Page>) => chosen);
  }

  /** It takes some of the pages, each once, as a site rule must. */
  lemma TitlesChoose(rule: Rule, tokens: Tokens, pages: seq<Page>)
    requires Distinct(UrlsOf(pages)) && IsTitleRule(rule, tokens, pages)
    ensures ChoosesFrom(rule, pages)
  {
    CandidatePagesAre(tokens, pages);
    var chosen := rule.choose(pages);
    assert forall i :: 0 <= i < |chosen| ==> chosen[i] in chosen;
  }

  /** The URLs of the candidates with a rival. */
  ghost function RivalUrls(tokens: Tokens, candidates: seq<Page>): set<string> {
    set i | 0 <= i < |candidates| && HasRival(tokens, candidates, i) :: candidates[i].url
  }

  lemma {:induction false} RivalsAreCounted(tokens: Tokens, candidates: seq<Page>, chosen: seq<Page>)
    requires AreTheRivals(tokens, candidates, chosen)
    ensures |chosen| == |RivalUrls(tokens, candidates)|
  {
    forall url
      ensures url in Elements(UrlsOf(chosen)) <==> url in RivalUrls(tokens, candidates)
    {
      if url in UrlsOf(chosen) {
        var k :| 0 <= k < |chosen| && UrlsOf(chosen)[k] == url;
        assert chosen[k] in candidates;
        var i :| 0 <= i < |candidates| && candidates[i] == chosen[k];
        assert HasRival(tokens, candidates, i);
      }
      if url in RivalUrls(tokens, candidates) {
        var i :| 0 <= i < |candidates| && HasRival(tokens, candidates, i) && candidates[i].url == url;
        var k :| 0 <= k < |chosen| && chosen[k] == candidates[i];
        assert UrlsOf(chosen)[k] == url;
      }
    }
    DistinctCount(UrlsOf(chosen));
    assert Elements(UrlsOf(chosen)) == RivalUrls(tokens, candidates);
  }

  /** From the rules to the stored row: the title rule's row tells how many pages
      have a title similar to another's. */
  lemma {:induction false} TitleRowIsExact(
    round: Rounding, rules: seq<Rule>, active: set<string>, tokens: Tokens, pages: seq<Page>, integrity: Integrity,
    k: nat)
    requires DistinctIds(rules) && k < |rules| && rules[k].category in active && IsRounding(round)
    requires Distinct(UrlsOf(pages)) && IsTitleRule(rules[k], tokens, pages)
    requires RivalUrls(tokens, CandidatePages(tokens, pages)) != {}
    ensures var found := RunRules(rules, active, pages, integrity);
      RowTells(Fold(round, rules[k].id, GroupOf(found, rules[k].id), |pages|),
               rules[k].id, |RivalUrls(tokens, CandidatePages(tokens, pages))|, |pages|)
  {
    TitlesChoose(rules[k], tokens, pages);
    RivalsAreCounted(tokens, CandidatePages(tokens, pages), rules[k].choose(pages));
    StoredSiteRowIsExact(round, rules, active, pages, integrity, k);
  }
}
