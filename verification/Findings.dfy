/** Rules, their findings, and how findings are folded into one stored row a rule
    (audit_engine/rules.py:96-122, 186-214, 458-498, 1003-1036,
    1071-1083; audit_engine/tasks.py:330-356).  Shares are exact fractions until a
    row is stored. */
module Findings {
  import opened Outcomes
  import opened Sequences
  import opened Splitting
  import opened Fractions
  import opened Collection
  import opened Text

  /** A fetched page as rules see it. */
  datatype Page = Page(url: string, evidence: string, status: Option<int>, links: seq<string>)

  datatype Finding = Finding(rule: string, info: bool, evidence: seq<string>, urls: seq<string>, share: Share)

  const URL_CAP := 50

  function Max(a: nat, b: nat): nat {
    if a >= b then a else b
  }

  function UrlsOf(pages: seq<Page>): (urls: seq<string>)
    ensures |urls| == |pages| && forall i :: 0 <= i < |pages| ==> urls[i] == pages[i].url
  {
    seq(|pages|, i requires 0 <= i < |pages| => pages[i].url)
  }

  function EvidenceOf(pages: seq<Page>): (evidence: seq<string>)
    ensures |evidence| == |pages| && forall i :: 0 <= i < |pages| ==> evidence[i] == pages[i].evidence
  {
    seq(|pages|, i requires 0 <= i < |pages| => pages[i].evidence)
  }

  function FirstFifty(s: seq<string>): (t: seq<string>)
    ensures t <= s && |t| == if |s| < 50 then |s| else 50
  {
    if |s| <= URL_CAP then s else s[..URL_CAP]
  }

  // ---------------------------------------------------------------- findings

  /** A finding about one page of `total`. */
  function PageFinding(rule: string, total: nat, page: Page): Finding {
    Finding(rule, false, [page.evidence], [page.url], Fraction(1, Max(1, total)))
  }

  /** One finding about several pages; the count is theirs unless another is given. */
  function SiteFinding(rule: string, total: nat, affected: seq<Page>, count: nat): Finding {
    Finding(rule, false, FirstFifty(Dedup(EvidenceOf(affected))), FirstFifty(Dedup(UrlsOf(affected))),
            AtMostOne(Fraction(count, Max(1, total))))
  }

  /** The finding about challenged responses. */
  function CaveatFinding(rule: string, integrity: Integrity): Finding {
    Finding(rule, true, [], FirstFifty(integrity.quarantined), AtMostOne(ChallengeShare(integrity)))
  }

  /** What constructing a finding demands of its evidence and its share. */
  ghost predicate IsAcceptable(finding: Finding) {
    (!finding.info ==> finding.evidence != []) && finding.share.num <= finding.share.den
  }

  /** It cites only these pages. */
  ghost predicate Cites(finding: Finding, pages: seq<Page>) {
    && (forall url :: url in finding.urls ==> url in UrlsOf(pages))
    && (forall id :: id in finding.evidence ==> id in EvidenceOf(pages))
  }

  lemma PageFindingIsHonest(rule: string, pages: seq<Page>, i: nat)
    requires i < |pages|
    ensures IsAcceptable(PageFinding(rule, |pages|, pages[i])) && Cites(PageFinding(rule, |pages|, pages[i]), pages)
  {
    assert UrlsOf(pages)[i] == pages[i].url && EvidenceOf(pages)[i] == pages[i].evidence;
  }

  lemma CitedFrom(pages: seq<Page>, affected: seq<Page>)
    requires forall i :: 0 <= i < |affected| ==> affected[i] in pages
    ensures forall i :: 0 <= i < |affected| ==>
      affected[i].url in UrlsOf(pages) && affected[i].evidence in EvidenceOf(pages)
  {
    forall i | 0 <= i < |affected|
      ensures affected[i].url in UrlsOf(pages) && affected[i].evidence in EvidenceOf(pages)
    {
      var j :| 0 <= j < |pages| && pages[j] == affected[i];
      assert UrlsOf(pages)[j] == pages[j].url && EvidenceOf(pages)[j] == pages[j].evidence;
    }
  }

  /** The first fifty of a list without its repetitions come from the list, and
      are none only if it is empty. */
  lemma {:induction false} FirstFiftyOfDedup(s: seq<string>)
    ensures forall x :: x in FirstFifty(Dedup(s)) ==> x in s
    ensures s != [] ==> FirstFifty(Dedup(s)) != []
  {
    DedupKeepsAll(s);
    assert forall x :: x in FirstFifty(Dedup(s)) ==> x in Dedup(s);
    if s != [] { assert s[0] in Dedup(s); }
  }

  lemma SiteFindingIsHonest(rule: string, pages: seq<Page>, affected: seq<Page>, count: nat)
    requires affected != [] && forall i :: 0 <= i < |affected| ==> affected[i] in pages
    ensures IsAcceptable(SiteFinding(rule, |pages|, affected, count))
    ensures Cites(SiteFinding(rule, |pages|, affected, count), pages)
  {
    CitedFrom(pages, affected);
    FirstFiftyOfDedup(UrlsOf(affected));
    FirstFiftyOfDedup(EvidenceOf(affected));
  }

  // ------------------------------------------------------------------- rules

  /** The shapes rules come in: one finding a flagged page; one finding about the
      pages chosen, if any; broken internal links; and the crawl caveat. */
  datatype Rule =
    | EachPage(id: string, category: string, flags: Page -> bool)
    | Chosen(id: string, category: string, choose: seq<Page> -> seq<Page>)
    | BrokenLinks(id: string, category: string)
    | Caveat(id: string, category: string)

  function Flagged(flags: Page -> bool, pages: seq<Page>): seq<Page> {
    if pages == [] then []
    else
      var n := |pages| - 1;
      Flagged(flags, pages[..n]) + (if flags(pages[n]) then [pages[n]] else [])
  }

  function PageFindings(rule: string, total: nat, flagged: seq<Page>): (findings: seq<Finding>)
    ensures |findings| == |flagged|
    ensures forall i :: 0 <= i < |flagged| ==> findings[i] == PageFinding(rule, total, flagged[i])
  {
    seq(|flagged|, i requires 0 <= i < |flagged| => PageFinding(rule, total, flagged[i]))
  }

  /** The page a link leads to, the last one stored under its URL. */
  function Target(pages: seq<Page>, link: string): Option<Page> {
    if pages == [] then None
    else if pages[|pages| - 1].url == link then Some(pages[|pages| - 1])
    else Target(pages[..|pages| - 1], link)
  }

  predicate IsBroken(pages: seq<Page>, link: string) {
    var target := Target(pages, link);
    target.Some? && target.value.status.Some? && target.value.status.value >= 400
  }

  /** A page and the failing page one of its links leads to. */
  datatype Pair = Pair(source: Page, target: Page)

  function BrokenOn(pages: seq<Page>, page: Page, links: seq<string>): seq<Pair> {
    if links == [] then []
    else
      var n := |links| - 1;
      BrokenOn(pages, page, links[..n])
        + (if IsBroken(pages, links[n]) then [Pair(page, Target(pages, links[n]).value)] else [])
  }

  function BrokenAmong(pages: seq<Page>, sources: seq<Page>): seq<Pair> {
    if sources == [] then []
    else
      var n := |sources| - 1;
      BrokenAmong(pages, sources[..n]) + BrokenOn(pages, sources[n], sources[n].links)
  }

  /** Source and target of every pair, one after the other. */
  function Affected(pairs: seq<Pair>): seq<Page> {
    if pairs == [] then []
    else
      var n := |pairs| - 1;
      Affected(pairs[..n]) + [pairs[n].source, pairs[n].target]
  }

  function TargetUrls(pairs: seq<Pair>): set<string> {
    if pairs == [] then {} else TargetUrls(pairs[..|pairs| - 1]) + {pairs[|pairs| - 1].target.url}
  }

  function Evaluate(rule: Rule, pages: seq<Page>, integrity: Integrity): seq<Finding> {
    match rule
    case EachPage(id, _, flags) => PageFindings(id, |pages|, Flagged(flags, pages))
    case Chosen(id, _, choose) =>
      var chosen := choose(pages);
      if chosen == [] then [] else [SiteFinding(id, |pages|, chosen, |chosen|)]
    case BrokenLinks(id, _) =>
      var pairs := BrokenAmong(pages, pages);
      if pairs == [] then [] else [SiteFinding(id, |pages|, Affected(pairs), |TargetUrls(pairs)|)]
    case Caveat(id, _) =>
      if StatusOf(integrity) == Clean then []
      else [CaveatFinding(id, integrity)]
  }

  /** A rule that chooses pages takes some of those given, each once. */
  ghost predicate ChoosesFrom(rule: Rule, pages: seq<Page>) {
    rule.Chosen? ==>
      var chosen := rule.choose(pages);
      Distinct(UrlsOf(chosen)) && forall i :: 0 <= i < |chosen| ==> chosen[i] in pages
  }

  lemma {:induction false} FlaggedIs(flags: Page -> bool, pages: seq<Page>)
    ensures forall x :: x in Flagged(flags, pages) <==> x in pages && flags(x)
    ensures forall i :: 0 <= i < |Flagged(flags, pages)| ==> Flagged(flags, pages)[i] in pages
  {
    if pages != [] {
      var n := |pages| - 1;
      FlaggedIs(flags, pages[..n]);
      assert pages == pages[..n] + [pages[n]];
    }
  }

  lemma {:induction false} TargetIsAPage(pages: seq<Page>, link: string)
    requires Target(pages, link).Some?
    ensures Target(pages, link).value in pages
  {
    if pages[|pages| - 1].url != link { TargetIsAPage(pages[..|pages| - 1], link); }
  }

  ghost predicate AreAmong(pairs: seq<Pair>, pages: seq<Page>) {
    forall i :: 0 <= i < |pairs| ==> pairs[i].source in pages && pairs[i].target in pages
  }

  lemma {:induction false} BrokenOnIs(pages: seq<Page>, page: Page, links: seq<string>)
    requires page in pages
    ensures AreAmong(BrokenOn(pages, page, links), pages)
  {
    if links != [] {
      var n := |links| - 1;
      BrokenOnIs(pages, page, links[..n]);
      if IsBroken(pages, links[n]) { TargetIsAPage(pages, links[n]); }
    }
  }

  lemma {:induction false} BrokenAmongIs(pages: seq<Page>, sources: seq<Page>)
    requires forall i :: 0 <= i < |sources| ==> sources[i] in pages
    ensures AreAmong(BrokenAmong(pages, sources), pages)
  {
    if sources != [] {
      var n := |sources| - 1;
      BrokenAmongIs(pages, sources[..n]);
      BrokenOnIs(pages, sources[n], sources[n].links);
    }
  }

  lemma {:induction false} AffectedAre(pairs: seq<Pair>, pages: seq<Page>)
    requires AreAmong(pairs, pages)
    ensures forall i :: 0 <= i < |Affected(pairs)| ==> Affected(pairs)[i] in pages
    ensures pairs != [] ==> Affected(pairs) != []
  {
    if pairs != [] { AffectedAre(pairs[..|pairs| - 1], pages); }
  }

  /** Every finding meets the evidence and share demands; every finding but the
      caveat carries evidence and cites fetched pages only. */
  lemma EvaluateIsHonest(rule: Rule, pages: seq<Page>, integrity: Integrity, finding: Finding)
    requires ChoosesFrom(rule, pages) && finding in Evaluate(rule, pages, integrity)
    ensures finding.rule == rule.id && IsAcceptable(finding)
    ensures !rule.Caveat? ==> !finding.info && Cites(finding, pages)
  {
    match rule
    case EachPage(id, _, flags) =>
      FlaggedIs(flags, pages);
      var i :| 0 <= i < |Flagged(flags, pages)| && finding == PageFinding(id, |pages|, Flagged(flags, pages)[i]);
      var j :| 0 <= j < |pages| && pages[j] == Flagged(flags, pages)[i];
      PageFindingIsHonest(id, pages, j);
    case Chosen(id, _, choose) =>
      SiteFindingIsHonest(id, pages, choose(pages), |choose(pages)|);
    case BrokenLinks(id, _) =>
      BrokenAmongIs(pages, pages);
      AffectedAre(BrokenAmong(pages, pages), pages);
      SiteFindingIsHonest(id, pages, Affected(BrokenAmong(pages, pages)), |TargetUrls(BrokenAmong(pages, pages))|);
    case Caveat(_, _) =>
  }

  // ----------------------------------------------------------------- running

  /** What a rule finds, if its category is active. */
  function FoundBy(rule: Rule, active: set<string>, pages: seq<Page>, integrity: Integrity): seq<Finding> {
    if rule.category in active then Evaluate(rule, pages, integrity) else []
  }

  /** `run_rules`: the findings of the active rules, rule by rule. */
  function RunRules(rules: seq<Rule>, active: set<string>, pages: seq<Page>, integrity: Integrity): seq<Finding> {
    if rules == [] then []
    else
      var n := |rules| - 1;
      RunRules(rules[..n], active, pages, integrity)
        + FoundBy(rules[n], active, pages, integrity)
  }

  lemma {:induction false} FoundByARule(
    rules: seq<Rule>, active: set<string>, pages: seq<Page>, integrity: Integrity, finding: Finding)
    requires finding in RunRules(rules, active, pages, integrity)
    ensures exists k :: 0 <= k < |rules| && finding in Evaluate(rules[k], pages, integrity)
  {
    var n := |rules| - 1;
    if finding !in Evaluate(rules[n], pages, integrity) {
      FoundByARule(rules[..n], active, pages, integrity, finding);
      var k :| 0 <= k < n && finding in Evaluate(rules[..n][k], pages, integrity);
      assert rules[k] == rules[..n][k];
    }
  }

  /** The pages the rules look at are those left of the stored ones. */
  ghost predicate AreEvaluable(pages: seq<Page>, items: seq<Item>, approved: string -> bool) {
    UrlsOf(pages) == Evaluable(Fetched(items, approved), IntegrityOf(items, approved).quarantined)
  }

  lemma CaveatCitesQuarantined(
    rule: Rule, items: seq<Item>, approved: string -> bool, pages: seq<Page>, finding: Finding)
    requires rule.Caveat? && finding in Evaluate(rule, pages, IntegrityOf(items, approved))
    ensures finding.info && forall url :: url in finding.urls ==> url in Quarantined(items, approved)
  {
    var quarantined := Quarantined(items, approved);
    assert forall url :: url in FirstFifty(Capped(quarantined)) ==> url in Capped(quarantined);
    assert forall url :: url in Capped(quarantined) ==> url in quarantined;
  }

  /** From a crawl to its findings, whatever it brought back: a finding cites
      fetched URLs only, none of them quarantined, unless it is the caveat, which
      cites quarantined ones only. */
  lemma {:induction false} FindingsCiteWhatWasFetched(
    rules: seq<Rule>, active: set<string>, items: seq<Item>, approved: string -> bool, pages: seq<Page>,
    finding: Finding)
    requires AreEvaluable(pages, items, approved)
    requires forall k :: 0 <= k < |rules| ==> ChoosesFrom(rules[k], pages)
    requires finding in RunRules(rules, active, pages, IntegrityOf(items, approved))
    ensures IsAcceptable(finding)
    ensures !finding.info ==>
      forall url :: url in finding.urls ==> url in Fetched(items, approved) && url !in Quarantined(items, approved)
    ensures finding.info ==> forall url :: url in finding.urls ==> url in Quarantined(items, approved)
  {
    FoundByARule(rules, active, pages, IntegrityOf(items, approved), finding);
    var k :| 0 <= k < |rules| && finding in Evaluate(rules[k], pages, IntegrityOf(items, approved));
    EvaluateIsHonest(rules[k], pages, IntegrityOf(items, approved), finding);
    EvaluableIsFetched(items, approved);
    CollectedIsDisjoint(items, approved);
    if rules[k].Caveat? { CaveatCitesQuarantined(rules[k], items, approved, pages, finding); }
  }

  /** Python's grouping of findings by rule id. */
  function GroupOf(findings: seq<Finding>, id: string): seq<Finding> {
    if findings == [] then []
    else
      var n := |findings| - 1;
      GroupOf(findings[..n], id) + (if findings[n].rule == id then [findings[n]] else [])
  }

  lemma {:induction false} GroupOfConcat(a: seq<Finding>, b: seq<Finding>, id: string)
    ensures GroupOf(a + b, id) == GroupOf(a, id) + GroupOf(b, id)
  {
    if b == [] {
      assert a + b == a;
    } else {
      var n := |b| - 1;
      GroupOfConcat(a, b[..n], id);
      assert (a + b)[..|a + b| - 1] == a + b[..n];
    }
  }

  lemma {:induction false} GroupOfUniform(findings: seq<Finding>, of: string, id: string)
    requires forall i :: 0 <= i < |findings| ==> findings[i].rule == of
    ensures GroupOf(findings, id) == if of == id then findings else []
  {
    if findings != [] {
      GroupOfUniform(findings[..|findings| - 1], of, id);
      FrontAndLast(findings);
    }
  }

  ghost predicate DistinctIds(rules: seq<Rule>) {
    forall i, j :: 0 <= i < j < |rules| ==> rules[i].id != rules[j].id
  }

  lemma EvaluateNames(rule: Rule, pages: seq<Page>, integrity: Integrity)
    ensures forall i :: 0 <= i < |Evaluate(rule, pages, integrity)| ==>
      Evaluate(rule, pages, integrity)[i].rule == rule.id
  {
  }

  /** What the rules of an id find, rule by rule. */
  function Pooled(
    rules: seq<Rule>, active: set<string>, pages: seq<Page>, integrity: Integrity, id: string): seq<Finding>
  {
    if rules == [] then []
    else
      var n := |rules| - 1;
      Pooled(rules[..n], active, pages, integrity, id)
        + (if rules[n].id == id then FoundBy(rules[n], active, pages, integrity) else [])
  }

  lemma {:induction false} GroupIsPooled(
    rules: seq<Rule>, active: set<string>, pages: seq<Page>, integrity: Integrity, id: string)
    ensures GroupOf(RunRules(rules, active, pages, integrity), id) == Pooled(rules, active, pages, integrity, id)
  {
    if rules != [] {
      var n := |rules| - 1;
      GroupIsPooled(rules[..n], active, pages, integrity, id);
      EvaluateNames(rules[n], pages, integrity);
      var earlier, last := RunRules(rules[..n], active, pages, integrity), FoundBy(rules[n], active, pages, integrity);
      GroupOfConcat(earlier, last, id);
      GroupOfUniform(last, rules[n].id, id);
    }
  }

  lemma {:induction false} OthersAddNothing(
    rules: seq<Rule>, active: set<string>, pages: seq<Page>, integrity: Integrity, id: string)
    requires forall i :: 0 <= i < |rules| ==> rules[i].id != id
    ensures Pooled(rules, active, pages, integrity, id) == []
  {
    if rules != [] { OthersAddNothing(rules[..|rules| - 1], active, pages, integrity, id); }
  }

  lemma {:induction false} PooledIsOneRule(
    rules: seq<Rule>, active: set<string>, pages: seq<Page>, integrity: Integrity, k: nat)
    requires DistinctIds(rules) && k < |rules|
    ensures Pooled(rules, active, pages, integrity, rules[k].id) == FoundBy(rules[k], active, pages, integrity)
  {
    var n := |rules| - 1;
    if k == n {
      OthersAddNothing(rules[..n], active, pages, integrity, rules[k].id);
    } else {
      PooledIsOneRule(rules[..n], active, pages, integrity, k);
    }
  }

  /** The group of a rule is what that rule found: nothing lost, nothing mixed in. */
  lemma {:induction false} GroupIsWhatTheRuleFound(
    rules: seq<Rule>, active: set<string>, pages: seq<Page>, integrity: Integrity, k: nat)
    requires DistinctIds(rules) && k < |rules|
    ensures GroupOf(RunRules(rules, active, pages, integrity), rules[k].id) ==
      if rules[k].category in active then Evaluate(rules[k], pages, integrity) else []
  {
    GroupIsPooled(rules, active, pages, integrity, rules[k].id);
    PooledIsOneRule(rules, active, pages, integrity, k);
  }

  // ------------------------------------------------------------------ folding

  function AllUrls(group: seq<Finding>): seq<string> {
    if group == [] then [] else AllUrls(group[..|group| - 1]) + group[|group| - 1].urls
  }

  function TotalShare(group: seq<Finding>): Share {
    if group == [] then ZERO else Plus(TotalShare(group[..|group| - 1]), group[|group| - 1].share)
  }

  /** The stored row of a group; its share is kept to four decimals, so as a number
      of ten-thousandths. */
  datatype Stored = Stored(rule: string, count: nat, share: nat)

  function Fold(round: Rounding, id: string, group: seq<Finding>, pageCount: nat): Stored {
    var share := AtMostOne(TotalShare(group));
    var urls := Dedup(AllUrls(group));
    Stored(id, Max(Max(1, |urls|), RoundOf(share, Max(1, pageCount))), round(share))
  }

  /** The row tells that the rule found `k` of `n` pages. */
  ghost predicate RowTells(row: Stored, id: string, k: nat, n: nat) {
    row.rule == id && row.count == k && ShareTells(row.share, k, n)
  }

  lemma {:induction false} FlaggedUrls(flags: Page -> bool, pages: seq<Page>)
    requires Distinct(UrlsOf(pages))
    ensures Distinct(UrlsOf(Flagged(flags, pages))) && |Flagged(flags, pages)| <= |pages|
  {
    if pages != [] {
      var n := |pages| - 1;
      assert forall i :: 0 <= i < n ==> UrlsOf(pages[..n])[i] == UrlsOf(pages)[i];
      FlaggedUrls(flags, pages[..n]);
      FlaggedIs(flags, pages[..n]);
      CitedFrom(pages[..n], Flagged(flags, pages[..n]));
      forall i | 0 <= i < |Flagged(flags, pages[..n])|
        ensures Flagged(flags, pages[..n])[i].url != pages[n].url
      {
        var j :| 0 <= j < n && UrlsOf(pages[..n])[j] == Flagged(flags, pages[..n])[i].url;
        assert UrlsOf(pages)[j] != UrlsOf(pages)[n];
      }
    }
  }

  lemma PlusOneMore(k: nat, d: nat)
    requires d > 0
    ensures Plus(if k == 0 then ZERO else Fraction(k, d), Fraction(1, d)) == Fraction(k + 1, d)
  {
    if k == 0 { assert 0 * d + 1 * 1 == 1 && 1 * d == d; }
  }

  /** The shares of single pages add up, without clipping. */
  lemma {:induction false} PageFindingsAddUp(rule: string, total: nat, flagged: seq<Page>)
    ensures AllUrls(PageFindings(rule, total, flagged)) == UrlsOf(flagged)
    ensures TotalShare(PageFindings(rule, total, flagged)) ==
      if flagged == [] then ZERO else Fraction(|flagged|, Max(1, total))
  {
    if flagged != [] {
      var n := |flagged| - 1;
      PageFindingsAddUp(rule, total, flagged[..n]);
      assert PageFindings(rule, total, flagged)[..n] == PageFindings(rule, total, flagged[..n]);
      assert UrlsOf(flagged) == UrlsOf(flagged[..n]) + [flagged[n].url];
      PlusOneMore(n, Max(1, total));
    }
  }

  /** How a group folds whose URLs are distinct and whose shares add up to `k` in `n`. */
  lemma {:induction false} Folds(
    round: Rounding, id: string, group: seq<Finding>, urls: seq<string>, k: nat, n: nat)
    requires 0 < k <= n && AllUrls(group) == urls && TotalShare(group) == Fraction(k, n) && Distinct(urls)
    ensures Fold(round, id, group, n) == Stored(id, Max(k, |urls|), round(Fraction(k, n)))
  {
    RoundRecovers(k, n);
    DedupOfDistinct(urls);
  }

  /** A rule that flags page by page is stored with exactly the number of pages it
      flagged, and their share to four decimals. */
  lemma {:induction false} PageRuleIsExact(round: Rounding, rule: Rule, pages: seq<Page>, integrity: Integrity)
    requires rule.EachPage? && Distinct(UrlsOf(pages)) && Flagged(rule.flags, pages) != [] && IsRounding(round)
    ensures RowTells(Fold(round, rule.id, Evaluate(rule, pages, integrity), |pages|),
                     rule.id, |Flagged(rule.flags, pages)|, |pages|)
  {
    var flagged := Flagged(rule.flags, pages);
    FlaggedUrls(rule.flags, pages);
    PageFindingsAddUp(rule.id, |pages|, flagged);
    Folds(round, rule.id, PageFindings(rule.id, |pages|, flagged), UrlsOf(flagged), |flagged|, |pages|);
    RoundedTells(round, |flagged|, |pages|);
  }

  lemma SingleGroup(finding: Finding)
    ensures AllUrls([finding]) == finding.urls && TotalShare([finding]) == finding.share
  {
    assert [finding][..0] == [];
    assert [] + finding.urls == finding.urls;
  }

  function Capped50(n: nat): nat {
    if n <= URL_CAP then n else URL_CAP
  }

  /** How a group of one site finding folds. */
  lemma SiteFolds(round: Rounding, rule: string, pages: seq<Page>, affected: seq<Page>, count: nat)
    requires 0 < count <= |pages|
    ensures Fold(round, rule, [SiteFinding(rule, |pages|, affected, count)], |pages|)
      == Stored(rule, Max(count, Capped50(|Dedup(UrlsOf(affected))|)), round(Fraction(count, |pages|)))
  {
    var finding := SiteFinding(rule, |pages|, affected, count);
    SingleGroup(finding);
    DedupKeepsAll(UrlsOf(affected));
    FirstFiftyIsDistinct(Dedup(UrlsOf(affected)));
    Folds(round, rule, [finding], finding.urls, count, |pages|);
  }

  lemma FirstFiftyIsDistinct(s: seq<string>)
    requires Distinct(s)
    ensures Distinct(FirstFifty(s))
  {
  }

  lemma ChosenIsNoMore(pages: seq<Page>, chosen: seq<Page>)
    requires Distinct(UrlsOf(chosen)) && forall i :: 0 <= i < |chosen| ==> chosen[i] in pages
    ensures |chosen| <= |pages|
  {
    CitedFrom(pages, chosen);
    assert forall url :: url in UrlsOf(chosen) ==> url in UrlsOf(pages);
    Pigeonhole(UrlsOf(chosen), Elements(UrlsOf(pages)));
    ElementsAreFewer(UrlsOf(pages));
  }

  lemma {:induction false} ElementsAreFewer(s: seq<string>)
    ensures |Elements(s)| <= |s|
  {
    if s != [] {
      var n := |s| - 1;
      ElementsAreFewer(s[..n]);
      assert Elements(s) == Elements(s[..n]) + {s[n]};
    } else {
      assert Elements(s) == {};
    }
  }

  /** A rule that chooses pages is stored with exactly the number of pages chosen,
      though it cites at most fifty, and their share to four decimals. */
  lemma SiteRuleIsExact(round: Rounding, rule: Rule, pages: seq<Page>, integrity: Integrity)
    requires rule.Chosen? && ChoosesFrom(rule, pages) && rule.choose(pages) != [] && IsRounding(round)
    ensures RowTells(Fold(round, rule.id, Evaluate(rule, pages, integrity), |pages|),
                     rule.id, |rule.choose(pages)|, |pages|)
  {
    ChosenIsNoMore(pages, rule.choose(pages));
    DedupOfDistinct(UrlsOf(rule.choose(pages)));
    SiteFolds(round, rule.id, pages, rule.choose(pages), |rule.choose(pages)|);
    RoundedTells(round, |rule.choose(pages)|, |pages|);
  }

  /** How many pages broken links cite: every source and every target once. */
  function CitedForBroken(pages: seq<Page>): nat {
    |Dedup(UrlsOf(Affected(BrokenAmong(pages, pages))))|
  }

  lemma {:induction false} TargetsAmong(pairs: seq<Pair>, pages: seq<Page>)
    requires AreAmong(pairs, pages)
    ensures TargetUrls(pairs) <= Elements(UrlsOf(pages)) && (pairs != [] ==> TargetUrls(pairs) != {})
  {
    if pairs != [] {
      TargetsAmong(pairs[..|pairs| - 1], pages);
      var target := pairs[|pairs| - 1].target;
      CitedFrom(pages, [target]);
      assert [target][0].url in UrlsOf(pages);
    }
  }

  lemma {:induction false} BrokenTargets(pairs: seq<Pair>, pages: seq<Page>)
    requires pairs != [] && AreAmong(pairs, pages)
    ensures 0 < |TargetUrls(pairs)| <= |pages|
  {
    TargetsAmong(pairs, pages);
    SubsetCount(TargetUrls(pairs), Elements(UrlsOf(pages)));
    ElementsAreFewer(UrlsOf(pages));
  }

  lemma {:induction false} BrokenLinksFold(round: Rounding, rule: Rule, pages: seq<Page>, integrity: Integrity)
    requires rule.BrokenLinks? && BrokenAmong(pages, pages) != [] && IsRounding(round)
    ensures var c := |TargetUrls(BrokenAmong(pages, pages))|;
      var row := Fold(round, rule.id, Evaluate(rule, pages, integrity), |pages|);
      && (row.count == c <==> CitedForBroken(pages) <= c || URL_CAP <= c)
      && ShareTells(row.share, c, |pages|)
  {
    var pairs := BrokenAmong(pages, pages);
    BrokenAmongIs(pages, pages);
    BrokenTargets(pairs, pages);
    SiteFolds(round, rule.id, pages, Affected(pairs), |TargetUrls(pairs)|);
    RoundedTells(round, |TargetUrls(pairs)|, |pages|);
  }

  /** Some link of the page leads to a failing page. */
  predicate LinksToBroken(pages: seq<Page>, page: Page) {
    exists link :: link in page.links && IsBroken(pages, link)
  }

  /** The URL answered with an error, and one of the given pages links to it. */
  predicate IsBrokenTarget(pages: seq<Page>, sources: seq<Page>, url: string) {
    IsBroken(pages, url) && exists p :: p in sources && url in p.links
  }

  predicate IsBrokenSource(pages: seq<Page>, sources: seq<Page>, url: string) {
    exists p :: p in sources && p.url == url && LinksToBroken(pages, p)
  }

  function SourceUrls(pairs: seq<Pair>): set<string> {
    if pairs == [] then {} else SourceUrls(pairs[..|pairs| - 1]) + {pairs[|pairs| - 1].source.url}
  }

  lemma {:induction false} UrlsOfConcat(a: seq<Pair>, b: seq<Pair>)
    ensures TargetUrls(a + b) == TargetUrls(a) + TargetUrls(b)
    ensures SourceUrls(a + b) == SourceUrls(a) + SourceUrls(b)
  {
    if b == [] {
      assert a + b == a;
    } else {
      UrlsOfConcat(a, b[..|b| - 1]);
      assert (a + b)[..|a + b| - 1] == a + b[..|b| - 1];
    }
  }

  lemma {:induction false} TargetUrl(pages: seq<Page>, link: string)
    requires Target(pages, link).Some?
    ensures Target(pages, link).value.url == link
  {
    if pages[|pages| - 1].url != link { TargetUrl(pages[..|pages| - 1], link); }
  }

  lemma {:induction false} OnePairUrls(pair: Pair)
    ensures TargetUrls([pair]) == {pair.target.url} && SourceUrls([pair]) == {pair.source.url}
  {
    assert [pair][..0] == [];
  }

  lemma {:induction false} BrokenOnUrls(pages: seq<Page>, page: Page, links: seq<string>)
    ensures forall url :: url in TargetUrls(BrokenOn(pages, page, links)) <==> url in links && IsBroken(pages, url)
    ensures forall url :: url in SourceUrls(BrokenOn(pages, page, links)) <==>
      url == page.url && exists link :: link in links && IsBroken(pages, link)
  {
    if links != [] {
      var n := |links| - 1;
      BrokenOnUrls(pages, page, links[..n]);
      FrontAndLast(links);
      if IsBroken(pages, links[n]) {
        var pair := Pair(page, Target(pages, links[n]).value);
        TargetUrl(pages, links[n]);
        OnePairUrls(pair);
        UrlsOfConcat(BrokenOn(pages, page, links[..n]), [pair]);
      } else {
        assert BrokenOn(pages, page, links) == BrokenOn(pages, page, links[..n]);
      }
      assert forall link :: link in links <==> link in links[..n] || link == links[n];
    }
  }

  /** The pairs of broken links read off the pages: their targets, their sources. */
  lemma {:induction false} BrokenAmongUrls(pages: seq<Page>, sources: seq<Page>)
    ensures forall url :: url in TargetUrls(BrokenAmong(pages, sources)) <==> IsBrokenTarget(pages, sources, url)
    ensures forall url :: url in SourceUrls(BrokenAmong(pages, sources)) <==> IsBrokenSource(pages, sources, url)
  {
    if sources != [] {
      var n := |sources| - 1;
      BrokenAmongUrls(pages, sources[..n]);
      BrokenOnUrls(pages, sources[n], sources[n].links);
      UrlsOfConcat(BrokenAmong(pages, sources[..n]), BrokenOn(pages, sources[n], sources[n].links));
      FrontAndLast(sources);
      assert forall p :: p in sources <==> p in sources[..n] || p == sources[n];
      assert forall url :: IsBrokenTarget(pages, sources, url) <==>
        IsBrokenTarget(pages, sources[..n], url) || (url in sources[n].links && IsBroken(pages, url));
      assert forall url :: IsBrokenSource(pages, sources, url) <==>
        IsBrokenSource(pages, sources[..n], url) || (url == sources[n].url && LinksToBroken(pages, sources[n]));
    }
  }

  lemma {:induction false} AffectedUrls(pairs: seq<Pair>)
    ensures Elements(UrlsOf(Affected(pairs))) == SourceUrls(pairs) + TargetUrls(pairs)
  {
    if pairs != [] {
      var n := |pairs| - 1;
      AffectedUrls(pairs[..n]);
      TwoMoreUrls(Affected(pairs[..n]), pairs[n].source, pairs[n].target);
    } else {
      assert UrlsOf([]) == [];
    }
  }

  lemma TwoMoreUrls(pages: seq<Page>, source: Page, target: Page)
    ensures Elements(UrlsOf(pages + [source, target])) == Elements(UrlsOf(pages)) + {source.url, target.url}
  {
    var two := [source.url, target.url];
    assert UrlsOf(pages + [source, target]) == UrlsOf(pages) + two;
    assert two[0] in UrlsOf(pages) + two && two[1] in UrlsOf(pages) + two;
  }

  lemma {:induction false} CountDedup(s: seq<string>)
    ensures |Dedup(s)| == |Elements(s)|
  {
    DedupKeepsAll(s);
    DistinctCount(Dedup(s));
    assert Elements(Dedup(s)) == Elements(s);
  }

  lemma {:induction false} NoLargerIff(a: set<string>, b: set<string>)
    ensures |a + b| <= |b| <==> a <= b
  {
    if a <= b {
      assert a + b == b;
    } else {
      var x :| x in a && x !in b;
      SubsetCount(b + {x}, a + b);
    }
  }

  /** The last page stored under the URL answered with an error. */
  ghost predicate Fails(pages: seq<Page>, url: string) {
    exists k :: 0 <= k < |pages| && FailsAt(pages, url, k)
  }

  ghost predicate FailsAt(pages: seq<Page>, url: string, k: nat)
    requires k < |pages|
  {
    && pages[k].url == url && pages[k].status.Some? && pages[k].status.value > 399
    && forall m :: k < m < |pages| ==> pages[m].url != url
  }

  lemma {:induction false} BrokenIffFails(pages: seq<Page>, url: string)
    ensures IsBroken(pages, url) <==> Fails(pages, url)
  {
    if pages != [] {
      var n := |pages| - 1;
      if pages[n].url == url {
        if IsBroken(pages, url) { assert FailsAt(pages, url, n); }
      } else {
        BrokenIffFails(pages[..n], url);
        if k :| 0 <= k < n && FailsAt(pages[..n], url, k) { assert FailsAt(pages, url, k); }
        if k :| 0 <= k < |pages| && FailsAt(pages, url, k) { assert FailsAt(pages[..n], url, k); }
      }
    }
  }

  /** The URLs that answered with an error and that some page links to. */
  ghost predicate AreBroken(pages: seq<Page>, broken: set<string>) {
    forall url :: url in broken <==> Fails(pages, url) && exists p :: p in pages && url in p.links
  }

  /** The page links to one of them. */
  ghost predicate LinksInto(page: Page, broken: set<string>) {
    exists link :: link in page.links && link in broken
  }

  lemma {:induction false} BrokenSets(pages: seq<Page>, broken: set<string>)
    requires AreBroken(pages, broken)
    ensures forall url :: url in broken <==> IsBrokenTarget(pages, pages, url)
    ensures forall p :: p in pages ==> (LinksToBroken(pages, p) <==> LinksInto(p, broken))
  {
    forall url
      ensures IsBroken(pages, url) <==> Fails(pages, url)
    {
      BrokenIffFails(pages, url);
    }
  }

  lemma {:induction false} BrokenTargetsAreExactIff(
    round: Rounding, rule: Rule, pages: seq<Page>, integrity: Integrity, broken: set<string>)
    requires rule.BrokenLinks? && broken != {} && forall url :: url in broken <==> IsBrokenTarget(pages, pages, url)
    requires IsRounding(round)
    ensures var row := Fold(round, rule.id, Evaluate(rule, pages, integrity), |pages|);
      && (row.count == |broken| <==>
            |broken| >= 50 || forall p :: p in pages && LinksToBroken(pages, p) ==> p.url in broken)
      && ShareTells(row.share, |broken|, |pages|)
  {
    var pairs := BrokenAmong(pages, pages);
    BrokenAmongUrls(pages, pages);
    assert TargetUrls(pairs) == broken;
    BrokenLinksFold(round, rule, pages, integrity);
    CountDedup(UrlsOf(Affected(pairs)));
    AffectedUrls(pairs);
    NoLargerIff(SourceUrls(pairs), broken);
    SourcesWithin(pages, pairs, broken);
  }

  /** Broken links are stored with the number of broken targets exactly when there
      are fifty of them or more, or every page that links to a broken one is itself
      a broken target; their share tells their number either way. */
  lemma {:induction false} BrokenLinksAreExactIff(
    round: Rounding, rule: Rule, pages: seq<Page>, integrity: Integrity, broken: set<string>)
    requires rule.BrokenLinks? && broken != {} && AreBroken(pages, broken) && IsRounding(round)
    ensures var row := Fold(round, rule.id, Evaluate(rule, pages, integrity), |pages|);
      && (row.count == |broken| <==>
            |broken| >= 50 || forall p :: p in pages && LinksInto(p, broken) ==> p.url in broken)
      && ShareTells(row.share, |broken|, |pages|)
  {
    BrokenSets(pages, broken);
    BrokenTargetsAreExactIff(round, rule, pages, integrity, broken);
  }

  /** When a rule finds nothing: no page is flagged, none chosen, no link broken, or at
      most one response in twenty was a challenge. */
  lemma {:induction false} SilentIff(rule: Rule, pages: seq<Page>, integrity: Integrity, broken: set<string>)
    requires AreBroken(pages, broken)
    ensures Evaluate(rule, pages, integrity) == [] <==>
      match rule
      case EachPage(_, _, flags) => forall p :: p in pages ==> !flags(p)
      case Chosen(_, _, choose) => choose(pages) == []
      case BrokenLinks(_, _) => broken == {}
      case Caveat(_, _) => 20 * integrity.challenged <= integrity.fetched + integrity.challenged
  {
    match rule
    case EachPage(_, _, flags) =>
      FlaggedIs(flags, pages);
      if Flagged(flags, pages) != [] { assert Flagged(flags, pages)[0] in Flagged(flags, pages); }
    case Chosen(_, _, _) =>
    case BrokenLinks(_, _) =>
      BrokenSets(pages, broken);
      BrokenAmongUrls(pages, pages);
      BrokenAmongIs(pages, pages);
      TargetsAmong(BrokenAmong(pages, pages), pages);
    case Caveat(_, _) =>
  }

  lemma {:induction false} SourcesWithin(pages: seq<Page>, pairs: seq<Pair>, broken: set<string>)
    requires forall url :: url in SourceUrls(pairs) <==> IsBrokenSource(pages, pages, url)
    ensures SourceUrls(pairs) <= broken <==> forall p :: p in pages && LinksToBroken(pages, p) ==> p.url in broken
  {
    if SourceUrls(pairs) <= broken {
      forall p | p in pages && LinksToBroken(pages, p)
        ensures p.url in broken
      {
        assert IsBrokenSource(pages, pages, p.url);
      }
    }
  }

  /** One link to one missing page: one broken target, but two pages counted. */
  lemma OneBrokenLinkCountsTwo(round: Rounding, home: Page, gone: Page, integrity: Integrity)
    requires home.url != gone.url && home.links == [gone.url] && gone.links == [] && gone.status == Some(404)
    ensures TargetUrls(BrokenAmong([home, gone], [home, gone])) == {gone.url}
    ensures Fold(round, "b", Evaluate(BrokenLinks("b", "technical"), [home, gone], integrity), 2).count == 2
  {
    var pages := [home, gone];
    OnePair(home, gone);
    PairOfPages(home, gone);
    SiteFolds(round, "b", pages, pages, 1);
  }

  lemma PairOfPages(home: Page, gone: Page)
    requires home.url != gone.url
    ensures Affected([Pair(home, gone)]) == [home, gone] && TargetUrls([Pair(home, gone)]) == {gone.url}
    ensures |Dedup(UrlsOf([home, gone]))| == 2
  {
    assert [Pair(home, gone)][..0] == [];
    TwoUrls(home, gone);
  }

  lemma TwoUrls(home: Page, gone: Page)
    requires home.url != gone.url
    ensures |Dedup(UrlsOf([home, gone]))| == 2
  {
    assert UrlsOf([home, gone]) == [home.url, gone.url];
    DedupOfDistinct([home.url, gone.url]);
  }

  lemma OnePair(home: Page, gone: Page)
    requires home.links == [gone.url] && gone.links == [] && gone.status == Some(404)
    ensures BrokenAmong([home, gone], [home, gone]) == [Pair(home, gone)]
  {
    var pages := [home, gone];
    assert Target(pages, gone.url) == Some(gone);
    assert home.links[..0] == [] && BrokenOn(pages, home, home.links) == [Pair(home, gone)];
    assert pages[..1] == [home] && [home][..0] == [];
    assert BrokenAmong(pages, [home]) == [Pair(home, gone)];
  }

  // --------------------------------------------------------------- the caveat

  /** The share of challenged responses, in fetched pages, is less than their
      number; much less once more than fifty are challenged. */
  lemma CaveatPages(fetched: nat, challenged: nat)
    requires challenged > 0
    ensures var rounded := RoundOf(Fraction(challenged, fetched + challenged), Max(1, fetched));
      && rounded <= challenged
      && (20 * challenged > fetched + challenged && challenged > URL_CAP ==> rounded < challenged)
  {
    var c, t := challenged, fetched + challenged;
    if fetched == 0 {
      QuotientIs(c * 1, c, 1, 0);
    } else {
      ProductIsPositive(c, c);
      assert c * t == c * fetched + c * c;
      if 20 * c > t && c > URL_CAP { LessTimes(50, c, c); }
      RoundIsBelow(c * fetched, t, c);
    }
  }

  /** The crawl caveat is stored with the number of challenged URLs exactly when
      there are at most fifty of them. */
  lemma CaveatIsExactIff(
    round: Rounding, rule: Rule, items: seq<Item>, approved: string -> bool, pages: seq<Page>)
    requires rule.Caveat? && |pages| == |Fetched(items, approved)|
    requires StatusOf(IntegrityOf(items, approved)) != Clean
    ensures var row := Fold(round, rule.id, Evaluate(rule, pages, IntegrityOf(items, approved)), |pages|);
      row.count == |Quarantined(items, approved)| <==> |Quarantined(items, approved)| <= 50
  {
    var quarantined := Quarantined(items, approved);
    CollectedIsDisjoint(items, approved);
    CaveatFolds(round, rule.id, IntegrityOf(items, approved), quarantined);
  }

  lemma FoldSingle(round: Rounding, rule: string, finding: Finding, n: nat)
    requires Distinct(finding.urls)
    ensures Fold(round, rule, [finding], n).count ==
      Max(Max(1, |finding.urls|), RoundOf(AtMostOne(finding.share), Max(1, n)))
  {
    SingleGroup(finding);
    DedupOfDistinct(finding.urls);
  }

  lemma FirstFiftyOfCapped(s: seq<string>)
    requires Distinct(s)
    ensures Distinct(FirstFifty(Capped(s))) && |FirstFifty(Capped(s))| == Capped50(|s|)
  {
  }

  lemma CaveatFolds(round: Rounding, rule: string, integrity: Integrity, quarantined: seq<string>)
    requires Distinct(quarantined) && integrity.quarantined == Capped(quarantined)
    requires integrity.challenged == |quarantined| && StatusOf(integrity) != Clean
    ensures Fold(round, rule, [CaveatFinding(rule, integrity)], integrity.fetched).count == |quarantined|
       <==> |quarantined| <= URL_CAP
  {
    FirstFiftyOfCapped(quarantined);
    FoldSingle(round, rule, CaveatFinding(rule, integrity), integrity.fetched);
    CaveatPages(integrity.fetched, integrity.challenged);
  }

  // ------------------------------------------------------------- the stored rows

  function RuleIds(findings: seq<Finding>): set<string> {
    if findings == [] then {} else RuleIds(findings[..|findings| - 1]) + {findings[|findings| - 1].rule}
  }

  /** One row a rule. */
  function RowsFor(round: Rounding, findings: seq<Finding>, ids: seq<string>, pageCount: nat): (rows: seq<Stored>)
    ensures |rows| == |ids|
    ensures forall i :: 0 <= i < |ids| ==> rows[i] == Fold(round, ids[i], GroupOf(findings, ids[i]), pageCount)
  {
    seq(|ids|, i requires 0 <= i < |ids| => Fold(round, ids[i], GroupOf(findings, ids[i]), pageCount))
  }

  ghost predicate Grouped(findings: seq<Finding>, grouped: map<string, seq<Finding>>) {
    grouped.Keys == RuleIds(findings) && forall id :: id in grouped ==> grouped[id] == GroupOf(findings, id)
  }

  lemma {:induction false} NoFindingsNoGroup(findings: seq<Finding>, id: string)
    requires id !in RuleIds(findings)
    ensures GroupOf(findings, id) == []
  {
    if findings != [] { NoFindingsNoGroup(findings[..|findings| - 1], id); }
  }

  /** `grouped.setdefault(item.rule_id, []).append(item)`. */
  function Append(grouped: map<string, seq<Finding>>, item: Finding): map<string, seq<Finding>> {
    grouped[item.rule := (if item.rule in grouped then grouped[item.rule] else []) + [item]]
  }

  lemma {:induction false} GroupedOneMore(findings: seq<Finding>, item: Finding, grouped: map<string, seq<Finding>>)
    requires Grouped(findings, grouped)
    ensures Grouped(findings + [item], Append(grouped, item))
  {
    assert (findings + [item])[..|findings|] == findings;
    if item.rule !in grouped { NoFindingsNoGroup(findings, item.rule); }
  }

  method GroupAll(findings: seq<Finding>) returns (grouped: map<string, seq<Finding>>)
    ensures Grouped(findings, grouped)
  {
    grouped := map[];
    for i := 0 to |findings|
      invariant Grouped(findings[..i], grouped)
    {
      GroupedOneMore(findings[..i], findings[i], grouped);
      assert findings[..i + 1] == findings[..i] + [findings[i]];
      grouped := Append(grouped, findings[i]);
    }
    assert findings[..|findings|] == findings;
  }

  /** One row is stored for every rule that found something, in order of the rule
      ids. */
  method CreateFindings(round: Rounding, findings: seq<Finding>, pageCount: nat) returns (rows: seq<Stored>)
    ensures rows == RowsFor(round, findings, Sorted(RuleIds(findings)), pageCount)
  {
    var grouped := GroupAll(findings);
    assert forall i :: 0 <= i < |Sorted(grouped.Keys)| ==> Sorted(grouped.Keys)[i] in Sorted(grouped.Keys);
    rows := FoldAll(round, findings, grouped, Sorted(grouped.Keys), pageCount);
  }

  lemma {:induction false} RowsForOneMore(
    round: Rounding, findings: seq<Finding>, ids: seq<string>, k: nat, pageCount: nat)
    requires k < |ids|
    ensures RowsFor(round, findings, ids[..k + 1], pageCount) ==
      RowsFor(round, findings, ids[..k], pageCount) + [Fold(round, ids[k], GroupOf(findings, ids[k]), pageCount)]
  {
  }

  method FoldAll(
    round: Rounding, ghost findings: seq<Finding>, grouped: map<string, seq<Finding>>, ids: seq<string>, pageCount: nat)
    returns (rows: seq<Stored>)
    requires Grouped(findings, grouped) && forall i :: 0 <= i < |ids| ==> ids[i] in grouped
    ensures rows == RowsFor(round, findings, ids, pageCount)
  {
    rows := [];
    for i := 0 to |ids|
      invariant rows == RowsFor(round, findings, ids[..i], pageCount)
    {
      RowsForOneMore(round, findings, ids, i, pageCount);
      rows := rows + [Fold(round, ids[i], grouped[ids[i]], pageCount)];
    }
    assert ids[..|ids|] == ids;
  }

  /** From the rules to the stored row: whatever else is found, the row of an
      active page rule tells exactly how many pages it flagged. */
  lemma {:induction false} StoredRowIsExact(
    round: Rounding, rules: seq<Rule>, active: set<string>, pages: seq<Page>, integrity: Integrity, k: nat)
    requires DistinctIds(rules) && Distinct(UrlsOf(pages)) && k < |rules| && rules[k].category in active
    requires rules[k].EachPage? && Flagged(rules[k].flags, pages) != [] && IsRounding(round)
    ensures var found := RunRules(rules, active, pages, integrity);
      RowTells(Fold(round, rules[k].id, GroupOf(found, rules[k].id), |pages|),
               rules[k].id, |Flagged(rules[k].flags, pages)|, |pages|)
  {
    GroupIsWhatTheRuleFound(rules, active, pages, integrity, k);
    PageRuleIsExact(round, rules[k], pages, integrity);
  }

  /** And the row of an active rule that chooses pages tells how many it chose. */
  lemma {:induction false} StoredSiteRowIsExact(
    round: Rounding, rules: seq<Rule>, active: set<string>, pages: seq<Page>, integrity: Integrity, k: nat)
    requires DistinctIds(rules) && k < |rules| && rules[k].category in active
    requires rules[k].Chosen? && ChoosesFrom(rules[k], pages) && rules[k].choose(pages) != [] && IsRounding(round)
    ensures var found := RunRules(rules, active, pages, integrity);
      RowTells(Fold(round, rules[k].id, GroupOf(found, rules[k].id), |pages|),
               rules[k].id, |rules[k].choose(pages)|, |pages|)
  {
    GroupIsWhatTheRuleFound(rules, active, pages, integrity, k);
    SiteRuleIsExact(round, rules[k], pages, integrity);
  }
}
