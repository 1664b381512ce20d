# Verified model of the audit engine

A Dafny model of the deterministic core of the SEO studio: the crawler, the URL layer, the link
graphs, the audit rules and their folding into stored findings, the run protocol over the database
row, and the packaging code that consumes the results. Each module follows one component; code that
works by updating state is a class or a method with loops, proved against a specification function,
and the properties are lemmas about that function or about whole runs.

| file | component |
|---|---|
| `Crawler.dfy`, `CrawlFrontier.dfy`, `CrawlPacing.dfy`, `CrawlTargets.dfy` | the crawler: class with throttle, robots cache and redirects; the frontier as a machine of turns; the delays; the crawler over the real URL layer |
| `Urls.dfy`, `UrlEscapes.dfy`, `UrlPath.dfy`, `UrlQuery.dfy`, `UrlAcceptance.dfy`, `UrlNormalForm.dfy`, `UrlDrift.dfy`, `UrlBoundary.dfy` | URL normalisation as text processing, which URLs are accepted, what a second pass does, URLs it changes or refuses, and the approved boundary |
| `LinkGraph.dfy` | redirect and canonical graphs |
| `TitleClusters.dfy`, `TitleFinding.dfy`, `DuplicateFields.dfy`, `Findings.dfy`, `Collection.dfy` | rules, stored pages, stored findings |
| `RunProtocol.dfy` | the life of one run under interleaving: the stored row and its writers, and what whole runs keep |
| `KeywordClusters.dfy`, `RedirectDestination.dfy`, `Names.dfy`, `Overlap.dfy` | keyword clusters, redirect targets, fresh names |
| `PackagePaths.dfy`, `Manifest.dfy` | package manifests |
| `Text.dfy`, `Splitting.dfy`, `Decimals.dfy`, `Fractions.dfy` | strings, counting, numerals, exact fractions |

## What is assumed

- Clock, resolver and network are oracles indexed by the number of calls made so far; a sleep lasts
  at least as long as asked for; the URL a response reports is the guard's normal form of the URL
  asked for. Every crawler statement holds for all such oracles.
- HTML parsing, robots matching, `urljoin`, IDNA, case folding, UTF-8 decoding, hashing and JSON are
  functions passed in. What is assumed of them is written out in `Urls.Lawful`, `UrlQuery.Lawful` and
  `PackagePaths.LawfulFold`; `UrlDrift.LawfulLibrary` and `UrlQuery.LawfulCodec` show that the
  assumptions can be met. In particular, encoding the host of an authority that passed the parser's
  normalisation check gives lower-case ASCII without control characters, `/`, `?`, `#` or `@`, though
  brackets may be new, and ASCII hosts are left alone. The library of `UrlDrift.LawfulLibrary` narrows
  full-width slashes, which that check refuses, and full-width brackets, which it lets pass, drops soft
  hyphens and encodes umlauts, as the stock codec does. The parser's own lower-casing of a host is part of
  the folding.
- Shares are exact until a row is stored, and scores until they are rounded. The thresholds 0.8 and 0.34
  compare a quotient of two small whole numbers with a decimal: the nearest double of the quotient reaches
  the nearest double of the decimal exactly when the fraction reaches the decimal, so
  `5 * |A * B| >= 4 * |A + B|` and `50 * |A * B| >= 17 * |A + B|` decide as the code does for sets smaller
  than 2^48. A score rounded to four decimals may differ from the double's only when the exact score ends
  in a half of the fourth decimal. A stored share is any nearest number of ten-thousandths
  (`Fractions.IsRounding`), so what is proved of it holds whichever way such a half goes; sums of doubles
  are near enough to the exact shares for this up to half a million pages.

## Results worth knowing

- `normalize_url` is not idempotent on every accepted URL. `UrlNormalForm.NormalizeIsIdempotentIff` gives
  the exact condition, on the accepted URL's host and path, and `UrlDrift` a URL for each of its clauses:
  a path that cleans to `//`; a host written as `a .`, which is trimmed before its dot is dropped and keeps
  a space that the next pass removes; and four hosts that are accepted once and refused from then on, because
  encoding gives them a closing bracket, an opening bracket, more than 253 characters, or, inside brackets,
  something the parser does not take for an address.
- Queue depths can exceed link distances once a page is requeued: `CrawlFrontier.RequeueCanOverstateDepth`
  is a crawl in which a requeued page waits behind a deeper one and its link is recorded a level too deep.
  They need not: in every crawl they are link distances exactly if no followed link was discovered more
  than one level below its page (`CrawlFrontier.DepthsAreShortestIff`).
- Backoff and delays belong to the authority of the URL that was requested, so a challenge met after a
  redirect slows the host the chain started from.
- The claim alone does not keep workers apart. The stale-stage scanner and every user action but a cancel
  overwrite the row without asking whether a worker is in flight. At most one worker is ever in flight
  exactly if no delivery finds the run in DRAFT or FAILED while another worker is
  (`RunProtocol.ExclusionIff`); the version never drops exactly if no worker writes the successor of a
  version the row has left behind (`RunProtocol.VersionsGrowIff`), which on a schedule without such
  deliveries means that no worker is overtaken by two user actions, decisions or scans and then writes
  (`RunProtocol.VersionsGrowIffNoneWritesLate`). That every overwriting step finds no worker in flight, or
  a cancelled run, is enough for both, and more than either needs; `RunProtocol.ScanLetsASecondWorkerIn`
  and `RunProtocol.FailureAfterReviewDropsTheVersion` show each failing.
- The stored `affected_count` of broken internal links is the number of broken targets exactly if there
  are at least fifty of them or every page that links to a broken page is itself a broken target; that of
  the crawl caveat is the number of challenged URLs exactly if there are at most fifty.
- The stored `affected_share` has four decimals: it is the share itself exactly if the number of pages
  divides ten thousand times the number affected. Whatever the rounding does with halves, the stored shares
  give every affected number back exactly if there are at most ten thousand pages
  (`Fractions.TellsEveryCountIff`), which the page limit of 2,500 keeps to.
- `_unique_slug` exceeds its maximum exactly when the suffix, or the fallback name, does.

## Model

| member | source | states |
|---|---|---|
| TitleClusters.MergeSimilar | audit_engine/rules.py:881-894 | the nested loops over the `parents` list end, and two candidates have the same root exactly if a chain of similar candidates joins them |
| TitleClusters.HalvingKeepsRoots | audit_engine/rules.py:883-887 | one path-halving write leaves every element's root as it was, and keeps the forest acyclic |
| TitleClusters.Find | audit_engine/rules.py:883-887 | `find` ends and returns the root, although it rewrites parents on the way, and no root changes |
| TitleClusters.LinkMergesTwoTrees | audit_engine/rules.py:894 | linking one root below another merges exactly those two trees |
| TitleClusters.Union | audit_engine/rules.py:894 | after the assignment the two elements share a root and all others keep theirs up to that merge |
| TitleClusters.FileClusters | audit_engine/rules.py:895-898 | filing by root and keeping files of two or more yields the clusters in order of their first member |
| TitleClusters.Evaluate | audit_engine/rules.py:874-904 | the reported clusters are the connected components of similarity with at least two members, whatever the candidates; so a candidate is reported exactly if its title shares at least four fifths of all tokens with another candidate's |
| TitleClusters.ReportedAreTheComponents | audit_engine/rules.py:889-898 | the filed clusters are the components: each closed under similarity, connected, and disjoint from the others |
| TitleClusters.ReportedIffSimilarToAnother | audit_engine/rules.py:889-904 | a page is reported exactly if it is similar to some other page |
| TitleClusters.SimilarIffJaccard | audit_engine/rules.py:892-893 | the whole-number test is the Jaccard test at 0.8 |
| TitleClusters.ReportedIffTwin | audit_engine/rules.py:889-904 | in any components, the candidates in clusters are those whose Jaccard index with another candidate reaches 0.8 |
| LinkGraph.WalkSingleEdge | audit_engine/graph.py:44-64 | the walk stops at the first repetition or where no edge leaves, with the evidence along it |
| LinkGraph.CompleteWalkIsUnique | audit_engine/graph.py:44-64 | there is only one such walk from a source |
| LinkGraph.WalkIsShort | audit_engine/graph.py:62-63 | a walk visits distinct sources before its last node, so it has at most as many edges as the graph |
| LinkGraph.StepLimitIsNeverReached | audit_engine/graph.py:62-63 | with the limit the validators pass, the `step_limit` break is never taken |
| LinkGraph.CyclesAreDisjointOrEqual | audit_engine/graph.py:93-100 | two cycles of the edge map that share a URL are the same |
| LinkGraph.LoopedWalkEndsInACycle | audit_engine/graph.py:97-98 | the loop key of a looped walk is exactly a cycle, whatever tail leads to it |
| LinkGraph.WalkFromACycle | audit_engine/graph.py:96-98 | every walk that starts on a cycle is looped and its key is that cycle |
| LinkGraph.BuildRedirects | audit_engine/graph.py:73-92 | the edges lead from the redirects' normal sources to their normal targets, each as its source's last redirect has it, and no redirect lacks its edge; every target outside the boundary is reported once, in order, with source, target and evidence; it fails exactly at the first redirect without a normal form or with a second target for its source |
| LinkGraph.AllReadIff | audit_engine/graph.py:73-92 | so every redirect is read exactly if all have normal forms and no source has two targets |
| LinkGraph.EveryCycleIsReported | audit_engine/graph.py:93-109 | no cycle of the edge map goes unreported |
| LinkGraph.ReportedLoopsAreCycles | audit_engine/graph.py:97-109 | every reported loop is a cycle |
| LinkGraph.LoopsAreReportedOnce | audit_engine/graph.py:98-100 | no cycle is reported twice, however many tails enter it |
| LinkGraph.LoopIsReportedFromItsLeastSource | audit_engine/graph.py:95-100 | the report of a cycle walks from the smallest source whose walk reaches it |
| LinkGraph.ChainIffTooManyHops | audit_engine/graph.py:110-122 | a source gets a chain issue exactly if its walk ends at a non-source after more than `max_hops` edges |
| LinkGraph.ChainIsNew | audit_engine/graph.py:111-113 | the duplicate check on chains never suppresses one |
| LinkGraph.ValidateRedirectGraph | audit_engine/graph.py:67-123 | the whole validator: the graph of the declared redirects, unsafe targets in order, then the specified loop and chain issues; or the conflict or the URL that stopped it |
| LinkGraph.BuildCanonicals | audit_engine/graph.py:130-150 | the edges lead from the pages' normal URLs to the normal forms of their canonicals, but for canonicals that point a page at itself, each as the last page of that URL has it; unsafe canonicals are reported once, in order; it stops at the first URL without a normal form |
| LinkGraph.CanonicalsAre | audit_engine/graph.py:132-136 | the canonicals read are those of the pages that declare a non-empty one, in order |
| LinkGraph.ValidateCanonicalGraph | audit_engine/graph.py:126-167 | the whole validator over that graph, with the same cycle guarantee |
| CrawlPacing.BackoffFollowsClosedForm | audit_engine/crawler.py:693-708 | after k signals a host's delay is `min(max, min * mult^k)`, or `min(max, mult^(k-1))` when the minimum is zero |
| CrawlPacing.DelaysGrowWithinBounds | audit_engine/crawler.py:198-220 | for every accepted configuration delays never shrink and stay between minimum and maximum |
| CrawlPacing.SlotKeepsRecord | audit_engine/crawler.py:710-718 | a slot granted after the wait keeps successive slots of a host at least the then current delay apart |
| CrawlPacing.BackoffKeepsRecord | audit_engine/crawler.py:696-708 | widening a delay leaves the record of slots valid |
| CrawlPacing.TouchKeepsRecord | audit_engine/crawler.py:800-802 | moving a host's last request forward after a wait leaves it valid too |
| CrawlFrontier.AdvanceConserves | audit_engine/crawler.py:861-934 | every turn keeps `discovered` the disjoint union of URLs with an outcome and URLs queued once |
| CrawlFrontier.AdvanceKeepsDepths | audit_engine/crawler.py:930-934 | every turn keeps each recorded depth the length of a real link path, within `max_depth` |
| CrawlFrontier.AdvanceStaysLayered | audit_engine/crawler.py:852-934 | a turn without requeue keeps queue depths sorted and spanning at most one level |
| CrawlFrontier.AdvanceKeepsSound | audit_engine/crawler.py:852-934 | all of this together, for every turn; also that seeds stay at depth zero and that the links of every page above the depth limit are discovered |
| CrawlFrontier.AdvanceMakesProgress | audit_engine/crawler.py:852-867 | every turn records an outcome or spends the one retry of a discovered URL: the termination measure |
| CrawlFrontier.EveryLoopHeadIsSound | audit_engine/crawler.py:852-934 | at every loop head of every run, whatever the fetches bring |
| CrawlFrontier.AttemptsAndOutcomes | audit_engine/crawler.py:779-805 | no URL is attempted more than twice, page URLs are distinct, and an exhausted queue leaves no discovered URL without a page or a failure |
| CrawlFrontier.DepthIsShortestDistance | audit_engine/crawler.py:840-934 | without requeue each depth is the shortest link distance from the seeds in the graph of returned pages, and an exhausted queue has discovered exactly the URLs within `max_depth` |
| CrawlFrontier.DepthsAreShortestIff | audit_engine/crawler.py:803-934 | with or without requeues, depths are the shortest link distances exactly if no page's followed link was discovered more than one level below it |
| CrawlFrontier.RequeueCanOverstateDepth | audit_engine/crawler.py:803-804 | with a requeue a depth can exceed the distance: a run of four turns |
| Crawler.World.Sleep | audit_engine/crawler.py:677-678 | a sleep lasts at least as long as asked for |
| Crawler.RobotsCache.CanFetch | audit_engine/crawler.py:633-667 | robots.txt is fetched once per origin and what came back decides every later URL: a readable file by its rules, no answer, 429 and 5xx forbid, any other status allows |
| Crawler.ClassifyIff | audit_engine/crawler.py:326-356 | which responses are throttling, denials or challenge pages, kind by kind, and that the wait asked for is passed on |
| Crawler.BoundedCrawler.constructor | audit_engine/crawler.py:671-687 | a crawler starts with empty caches |
| Crawler.BoundedCrawler.ApplyBackoff | audit_engine/crawler.py:696-708 | counts one more signal for the host and keeps every delay at its closed form |
| Crawler.BoundedCrawler.AwaitTurn | audit_engine/crawler.py:710-718 | returns no earlier than a full delay after the host's last request |
| Crawler.BoundedCrawler.Throttle | audit_engine/crawler.py:710-718 | adds one slot for the host and keeps the whole record spaced |
| Crawler.BoundedCrawler.FetchOnce | audit_engine/crawler.py:755-763 | a URL is fetched exactly if robots permits it and the guard releases it; whatever is sent is on record, answered or not: permitted, with a throttle slot of its own, to the normal form at an approved host |
| Crawler.BoundedCrawler.AfterReply | audit_engine/crawler.py:765-776 | stops with the outcome the reply calls for, or goes on to a released target not yet in the chain; a target is rejected exactly for not being one the guard releases |
| Crawler.BoundedCrawler.FetchFollowingRedirects | audit_engine/crawler.py:748-777 | the chain follows the redirects, repeats no URL, has at most `max_redirects + 1` URLs, ends for the reason given, and the last statement is never reached; the fetches on record are those of its URLs, one more than the replies only if the last fetch was sent and failed |
| Crawler.BoundedCrawler.RequeueAfterChallenge | audit_engine/crawler.py:779-805 | the host is backed off in any case; the URL is queued again exactly if it has not been retried and waiting stays inside the duration budget |
| Crawler.BoundedCrawler.WaitOut | audit_engine/crawler.py:800-802 | a wait lasts at least as long as asked for, counts as the host's last request, and keeps the record spaced |
| Crawler.EnqueueLinks | audit_engine/crawler.py:930-934 | queue and discovered set after the inner loop are those of the frontier specification |
| Crawler.SettleChallenge | audit_engine/crawler.py:865-875 | a quarantined URL leaves a page without links and a failure |
| Crawler.SettleVisit | audit_engine/crawler.py:879-934 | a visit is the frontier's turn: page, parse failure, and links unless at the depth limit |
| Crawler.TurnHappened | audit_engine/crawler.py:860-934 | what a pass leaves behind, told by the reply alone: pages, links, failures, queue and discovered URLs for a refusal, a challenge, a requeue and a fetch |
| Crawler.BoundedCrawler.OnePass | audit_engine/crawler.py:852-934 | one pass of the loop is one turn of the frontier, explained by its redirect chain; the page recorded is that of the reply, with exactly the links of its parsed body, and above the depth limit all of these are discovered and the new ones queued; the host of the URL asked for gets one more throttle signal exactly if the pass met a challenge |
| Crawler.BoundedCrawler.CrawlLoop | audit_engine/crawler.py:852-934 | the loop ends, records at most `max_pages + 1` outcomes, is told turn by turn, and stops for the reason given; each host's signals, which fix its delay, are its challenged passes |
| Crawler.BoundedCrawler.SeedQueue | audit_engine/crawler.py:840-846 | every seed is normalised and approved before the crawl, each queued once at depth zero |
| Crawler.BoundedCrawler.Crawl | audit_engine/crawler.py:837-945 | the whole crawl: its result summarises the last state of a run from the seeds' normal forms, in which every pass did what its reply calls for, and each host's signals are its challenged passes |
| Crawler.CrawlIsSound | audit_engine/crawler.py:837-945 | what every crawl guarantees: distinct pages, at most two attempts, complete outcomes, real depths, exact distances without requeue, and when they are exact with one |
| CrawlTargets.ApprovedIsInside | audit_engine/urls.py:147-153 | what the guard approves lies, label by label, at or below an approved domain |
| CrawlTargets.LayerTells | audit_engine/crawler.py:837-945 | the guard and the normal form that the crawl works over are those of the URL layer: a URL is approved exactly if the host read back from its normal form has one of the domains as a boundary |
| CrawlTargets.CrawlSite | audit_engine/crawler.py:837-945 | over the real URL layer, every page fetch that is sent in a crawl, answered or not, goes to a normal form whose host lies at or below an approved domain |
| UrlEscapes.SameNormalFormIffEquivalent | audit_engine/urls.py:66-79 | two paths get the same normal form exactly if they differ only in the case of hex digits or in escaping of unreserved characters (section 6.2.2 of RFC 3986) |
| UrlEscapes.NormalFormKeepsMeaning | audit_engine/urls.py:66-79 | the decoded octets and the number of real separators stay, and only upper-case escapes of other octets remain |
| UrlEscapes.NormalIsFixed | audit_engine/urls.py:66-79 | a normal form is its own normal form |
| UrlEscapes.EscapesAcceptedIff | audit_engine/urls.py:66-79 | escapes are accepted exactly if every percent sign has two hexadecimal digits and none stands for a control character, DEL or a backslash |
| UrlEscapes.UnreservedAre | audit_engine/urls.py:45 | the unreserved characters, one by one |
| UrlPath.CleanIsIdempotentIff | audit_engine/urls.py:125-130 | cleaning twice is cleaning once exactly if normpath does not give `//`; three times always settles |
| UrlPath.PathShape | audit_engine/urls.py:122-131 | the resulting path names the quoted segments of the decoded path, in safe characters and lasting escapes |
| UrlPath.PathIsIdempotentIff | audit_engine/urls.py:122-131 | a second pass over an accepted path never fails and changes nothing exactly if the path did not clean to `//` |
| UrlPath.BareSlashesDrift | audit_engine/urls.py:125-130 | `//` becomes `///`, then `/` |
| UrlPath.DoubleDotUndoes | audit_engine/urls.py:126 | a double dot undoes the segment before it, wherever it stands in a path |
| UrlPath.DoubleDotAtRoot | audit_engine/urls.py:126 | at the root there is nothing to undo |
| UrlPath.SingleDotAndDoubleSlash | audit_engine/urls.py:126 | single dots and doubled slashes name nothing |
| UrlPath.SegmentIsNamed | audit_engine/urls.py:126 | and any other segment is named after those before it; with the rules above this says what segments any path names |
| UrlPath.DetourIsCleaned | audit_engine/urls.py:122-131 | so a path with a detour is cleaned to the path without it, however dots and slashes are escaped |
| UrlPath.CleanKeepsEnds | audit_engine/urls.py:125-130 | where there is a segment, the trailing slash and the root stay as they were |
| UrlPath.PathAcceptedIff | audit_engine/urls.py:122-125 | a path is accepted exactly if its escapes are and it holds no backslash and no null character |
| UrlPath.SafeCharactersAre | audit_engine/urls.py:131 | the characters left alone by quoting, one by one |
| UrlQuery.ParseOfEncode | audit_engine/urls.py:133-140 | parsing an encoded query gives the items back, blanks and all |
| UrlQuery.EncodingIsInjective | audit_engine/urls.py:131-140 | different texts have different UTF-8 forms |
| UrlQuery.SortOrders | audit_engine/urls.py:138-139 | the sort is ascending by folded name, then value, and loses no item |
| UrlQuery.SortIsStable | audit_engine/urls.py:138-139 | items with equal keys keep their order |
| UrlQuery.CleanIsIdempotent | audit_engine/urls.py:133-140 | a cleaned query is fixed by a second pass |
| UrlQuery.CleanKeepsMeaning | audit_engine/urls.py:133-140 | cleaning keeps exactly the items that do not track, as often as they were there, in key order |
| UrlQuery.TrackingIff | audit_engine/urls.py:26-50 | which parameters track, name by name |
| UrlQuery.ParseTells | audit_engine/urls.py:133 | a query is parsed piece by piece between ampersands, empty pieces not counting |
| UrlQuery.DivideTells | audit_engine/urls.py:133 | a piece is cut at its first equals sign, a missing value being empty |
| Urls.SplitOfUnsplit | audit_engine/urls.py:101-141 | splitting a URL put together from clean parts gives the parts back |
| Urls.CanonicalHostText | audit_engine/urls.py:52-63 | the canonical host of an authority that passed the check is lower-case ASCII without `/`, `?`, `#` or `@`, every label of 1 to 63 characters |
| UrlAcceptance.SplitRebuilds | audit_engine/urls.py:101-104 | the parts read off a URL make it up, each ending where its delimiter stands |
| UrlAcceptance.CanonicalHostIff | audit_engine/urls.py:52-63 | a host has a canonical form exactly if something of at most 253 characters is left of it and is encoded into labels of 1 to 63 |
| UrlAcceptance.AuthorityIff | audit_engine/urls.py:105-116 | an authority is accepted exactly if it passes the parser's checks, names no user, and has a host that can be encoded and a port that is empty or a number from 1 to 65535 |
| UrlAcceptance.NormalizeIff | audit_engine/urls.py:82-144 | `normalize_url` accepts a URL exactly if it is readable, its parts are in order and the result is not too long; the result is the text of scheme, encoded host, port unless it is the default one, cleaned path and cleaned query |
| UrlNormalForm.CanonicalIsFixedIff | audit_engine/urls.py:52-63 | a canonical host is its own canonical form exactly if no space is left at its ends and it is at most 253 characters long |
| UrlNormalForm.NetlocIsInjective | audit_engine/urls.py:117-118 | authorities put together from different hosts or ports differ, whatever brackets the hosts hold |
| UrlNormalForm.AuthorityReadsBackIff | audit_engine/urls.py:105-118 | host and port put together read back as that host and port exactly if the host is stable: no space at its ends, at most 253 characters, no closing bracket, an opening one only where it is put in brackets, and accepted there |
| UrlNormalForm.NormalizedReadsBack | audit_engine/urls.py:82-144 | the result is within the length limit, has nothing to strip, and splits into the pieces it was put together from |
| UrlNormalForm.SameFormIffSamePieces | audit_engine/urls.py:82-144 | two accepted URLs have the same form exactly if scheme, host, port, cleaned path and cleaned query agree |
| UrlNormalForm.NormalizeIsIdempotentIff | audit_engine/urls.py:82-144 | for every accepted URL, the result is fixed by a second pass exactly if its host is stable and its path is not bare slashes |
| UrlNormalForm.DetourHasTheSameForm | audit_engine/urls.py:122-141 | URLs that differ in a segment undone by a double dot have the same normal form, or are refused alike |
| UrlDrift.SpaceBeforeTheDotDrifts | audit_engine/urls.py:53 | the host `a .` becomes `a ` with a trailing space, then `a` |
| UrlDrift.ClosingBracketIsRefusedNext | audit_engine/urls.py:82-144 | `http://a` with a full-width closing bracket and `/` is accepted as `http://a]/`, which is then refused |
| UrlDrift.OpeningBracketIsRefusedNext | audit_engine/urls.py:82-144 | the same for a full-width opening bracket |
| UrlDrift.LongEncodingIsRefusedNext | audit_engine/urls.py:52-63 | a host of 32 to 127 one-letter labels that need encoding is accepted, and its encoded form refused as too long |
| UrlDrift.LostScopeIsRefusedNext | audit_engine/urls.py:107-118 | a bracketed address whose scope is a soft hyphen is accepted, and refused once encoding has dropped the scope |
| UrlDrift.BareSlashesUrlDrifts | audit_engine/urls.py:122-141 | `http://a//` becomes `http://a///`, then `http://a/` |
| UrlDrift.LawfulLibrary | audit_engine/urls.py:52-63 | what is assumed of the library can be met, by one that encodes all the hosts of these examples |
| UrlBoundary.WithinIffLabelsEnd | audit_engine/urls.py:150-151 | the textual test holds exactly if the boundary's labels end the host's labels |
| UrlBoundary.WithinIsTransitive | audit_engine/urls.py:147-153 | what lies below something below a boundary lies below the boundary |
| UrlBoundary.AnyBoundaryIff | audit_engine/urls.py:147-153 | the loop answers yes exactly if some domain is a boundary of the host and no entry before it is a bad host |
| UrlBoundary.ReadHostIff | audit_engine/urls.py:156-162 | the host compared is read off every URL whose authority would be accepted, and otherwise only where a user, the port or the encoding of the host is what is wrong |
| UrlBoundary.AllowedIff | audit_engine/urls.py:156-162 | for every URL and every list of domains: it is allowed exactly if it is accepted, its host can be read back from the result and has a canonical form, and that form lies at or below a domain with no bad entry before it; the answer is the normal form |
| UrlBoundary.AllowedIffWithin | audit_engine/urls.py:156-162 | where the host is stable, that form is the host the result was put together from |
| UrlBoundary.CollectIff | audit_engine/urls.py:212-221 | gathering addresses succeeds exactly if every well-formed answer is public, and gathers exactly those |
| UrlBoundary.UnzonedTells | audit_engine/urls.py:212-218 | an answer is judged without its zone |
| UrlBoundary.ValidateIff | audit_engine/urls.py:202-224 | a target is released exactly if its URL is allowed, no answer looked at is non-public and one carries an address; the connection goes to those addresses only |
| RunProtocol.RunSystem.Perform | audit_engine/tasks.py:422-556 | each step, written in place by the claim, the guarded write, the user's transition, the decision or the scanner, leaves row, workers and stored rows as the transition system says |
| RunProtocol.RunSystem.Execute | audit_engine/tasks.py:455-556 | whatever schedule is asked for, what is performed is a run of the transition system; at most one worker is ever in flight exactly if none of its steps collides, and the version never drops exactly if none reverts it |
| RunProtocol.AllowedIffOrigin | app/domain/workflow.py:34-66 | the transition table read backwards: from which states each state can be entered; every state can be cancelled but a packaged, an approved and a cancelled one |
| RunProtocol.CancelledStaysCancelled | audit_engine/tasks.py:422-438 | in every run a cancelled row stays cancelled, and no worker, delivery or scan touches it |
| RunProtocol.ExclusionIff | audit_engine/tasks.py:457-470 | in every run, at most one worker is in flight in every state exactly if no delivery finds the run in DRAFT or FAILED while a worker is in flight |
| RunProtocol.VersionsGrowIff | audit_engine/tasks.py:505-554 | in every run, the version never drops exactly if no worker writes the successor of a version that the row, not cancelled, has left behind |
| RunProtocol.VersionsGrowIffNoneWritesLate | audit_engine/tasks.py:505-554 | read off the schedule: while no delivery collides, the version never drops exactly if no worker writes a version after two or more user actions, decisions or scans since its claim or its last such write, the run not being cancelled |
| RunProtocol.DraftHasNoEvidence | audit_engine/tasks.py:465-468 | in every run a DRAFT run has no crawl rows and no worker: only a retry has anything to clear |
| RunProtocol.QuietStepIsSafe | audit_engine/tasks.py:459-556 | every step keeps exclusion, one attempt's evidence and the workers' knowledge of the row, and lowers no version, unless it overwrites the row of a worker in flight |
| RunProtocol.NoisyStepIsUnsafe | app/domain/tasks.py:197-207 | such an overwriting step always leaves a worker in flight that no longer knows the row |
| RunProtocol.RunIsSafeIffQuiet | audit_engine/tasks.py:459-556 | the invariant, of which that knowledge is a part, holds in every state of a run exactly if every overwriting step was quiet; sufficient, not necessary, for exclusion and version order |
| RunProtocol.QuietRunsExclude | audit_engine/tasks.py:457-470 | in a run whose overwriting steps are quiet, at most one worker is between claim and last write, and stored evidence is of one attempt |
| RunProtocol.QuietVersionsGrow | audit_engine/tasks.py:505-554 | and the row's version never decreases |
| RunProtocol.NoisyRunCanBeHarmless | app/domain/tasks.py:197-207 | a run that is not quiet, a scan over a live worker that is then lost, and yet keeps exclusion and version order |
| RunProtocol.ScanLetsASecondWorkerIn | app/domain/tasks.py:197-207 | after a scan that hit a live worker, the next delivery puts a second one in flight |
| RunProtocol.FailureAfterReviewDropsTheVersion | audit_engine/tasks.py:542-556 | user transitions during a worker's last steps let its failure lower the version: a run of six steps |
| RunProtocol.LostWorkerStrandsTheRun | audit_engine/tasks.py:465-466 | a worker that dies without a write strands its run until a user or the scanner acts |
| Collection.CollectedIsDisjoint | audit_engine/tasks.py:199-245 | fetched and quarantined URLs never repeat and never overlap, whatever the crawl brought back |
| Collection.CollectedIs | audit_engine/tasks.py:199-245 | a URL is quarantined exactly if it is approved and was challenged once, and stored exactly if approved, fetched and never challenged |
| Collection.PageTable.Insert | audit_engine/tasks.py:441-446 | a row is refused exactly if its URL is there already |
| Collection.PageTable.Attempt | audit_engine/tasks.py:441-451 | a retry clears what a failed attempt left, a first attempt finds nothing; either way a completed attempt leaves exactly the expected rows, a lost one a prefix of them, and the uniqueness constraint is never violated |
| Collection.LeftoversBlockARetry | audit_engine/tasks.py:441-446 | without the clearing, a retry over leftovers would violate it |
| Collection.EvaluableIsFetched | audit_engine/rules.py:78-85 | the rules see exactly the fetched pages, although only fifty quarantined URLs are passed on |
| Collection.StatusIff | audit_engine/rules.py:52-66 | a crawl is blocked exactly above three tenths of challenged responses, and clean exactly up to a twentieth |
| Collection.EvaluableAre | audit_engine/rules.py:78-85 | the rules see exactly the pages not known to be challenged, each once |
| Findings.EvaluateIsHonest | audit_engine/rules.py:96-122 | every finding meets the evidence and share demands; every finding but the crawl caveat carries evidence and cites fetched pages only |
| Findings.SiteFindingIsHonest | audit_engine/rules.py:186-214 | the same for one finding about several pages, despite the fifty-URL cap |
| Findings.FindingsCiteWhatWasFetched | audit_engine/rules.py:1071-1083 | from any crawl result to its findings: every finding but the caveat cites fetched URLs only and none that is quarantined; the caveat cites quarantined URLs only |
| Findings.GroupIsWhatTheRuleFound | audit_engine/tasks.py:332-338 | grouping by rule id gives back exactly what each active rule found, and nothing for the others |
| Findings.CreateFindings | audit_engine/tasks.py:332-343 | one row for every rule that found something, in order of rule ids |
| Findings.PageRuleIsExact | audit_engine/tasks.py:341-356 | a rule that flags page by page is stored with exactly the number of flagged pages, since shares add up without clipping and rounding recovers the number, and with their share to four decimals |
| Findings.StoredRowIsExact | audit_engine/tasks.py:330-356 | the same from the rules to the stored row, whatever else was found |
| Findings.SiteRuleIsExact | audit_engine/tasks.py:341-356 | a rule about chosen pages, each of the crawl and none twice, is stored with exactly their number, though it cites at most fifty, and with their share to four decimals |
| Findings.StoredSiteRowIsExact | audit_engine/tasks.py:330-356 | the same from the rules to the stored row, whatever else was found |
| Findings.BrokenLinksAreExactIff | audit_engine/rules.py:465-492 | broken links are stored with the number of distinct URLs that answered 400 or above and are linked to exactly if there are at least fifty of them, or every page that links to one is itself one; the stored share is that of these URLs, to four decimals, either way |
| Findings.SilentIff | audit_engine/rules.py:1003-1036 | when a rule finds nothing: no page flagged, none chosen, no broken target, or at most one response in twenty challenged |
| Findings.OneBrokenLinkCountsTwo | audit_engine/rules.py:465-492 | one link to one missing page is stored as two |
| Findings.CaveatIsExactIff | audit_engine/rules.py:1003-1036 | the crawl caveat is stored with the number of challenged URLs exactly if there are at most fifty |
| Fractions.RoundedIsExactIff | audit_engine/tasks.py:356 | a share of k in n, stored to four decimals, is the share itself exactly if n divides 10000 k |
| Fractions.TellsEveryCountIff | app/domain/models.py:507-509 | the stored shares tell every count out of n pages exactly if n is at most 10000, whichever way halves are rounded |
| DuplicateFields.Duplicates | audit_engine/rules.py:582-592 | the loops over the dictionary of values give the specified positions, file by file |
| DuplicateFields.ReportedIffShared | audit_engine/rules.py:582-592 | exactly the pages that share their value with another page are reported, each once |
| DuplicateFields.DuplicatesChoose | audit_engine/rules.py:593-606 | these are pages of the crawl, each once, so the rule's count is stored exactly |
| DuplicateFields.DuplicateRowIsExact | audit_engine/tasks.py:330-356 | the stored row of such a rule tells exactly how many pages share their value with another, and their share to four decimals |
| TitleFinding.Choose | audit_engine/rules.py:867-914 | over the pages of a crawl, the title rule chooses exactly the candidates whose Jaccard index with another candidate reaches 0.8, each once |
| TitleFinding.CandidateTells | audit_engine/rules.py:875-880 | the candidates are the pages with a status from 200 to 299 and a title with tokens |
| TitleFinding.TitleRule | audit_engine/rules.py:867-914 | the rule made of that choice, as the others are run |
| TitleFinding.TitlesChoose | audit_engine/rules.py:899-914 | it takes some of the pages, each once |
| TitleFinding.TitleRowIsExact | audit_engine/tasks.py:330-356 | its stored row tells exactly how many pages have a title similar to another candidate's |
| KeywordClusters.OverlapsIffJaccard | exporters/run_data.py:941-945 | the whole-number test is the Jaccard test at 0.34 |
| KeywordClusters.Place | exporters/run_data.py:1165-1173 | one keyword joins the first cluster it overlaps or seeds a new one, as specified |
| KeywordClusters.PlacedFirstFit | exporters/run_data.py:1161-1173 | when placed, a keyword failed the overlap with every earlier cluster as it then was, and met it with its own unless it seeded it |
| KeywordClusters.PoolIsTheUnion | exporters/run_data.py:1168-1169 | a cluster's token set is the union of its members' tokens and nothing else |
| KeywordClusters.NoClusterIsEmpty | exporters/run_data.py:1172-1173 | every cluster has a member |
| KeywordClusters.CompileKeywordClusters | exporters/run_data.py:1155-1206 | every keyword is marked in place with the id of its cluster, nothing else about it changes, and every cluster is reported |
| KeywordClusters.ClustersPartition | exporters/run_data.py:1191-1192 | a keyword is a member of exactly the cluster whose id it carries |
| KeywordClusters.NothingIsLost | exporters/run_data.py:1174-1205 | whatever is weighed, the clusters together hold all of it, once |
| KeywordClusters.ReportsConserve | exporters/run_data.py:1196-1198 | keyword counts add up to the number of keywords and total volumes to all measured volumes |
| KeywordClusters.ReportTells | exporters/run_data.py:1174-1205 | what a cluster's report says: id, first member's phrase up to 120 characters, number of members, and the measured volumes' sum unless there is none |
| KeywordClusters.ClusterIdTells | exporters/run_data.py:1176 | ids are `CL-` and the one-based number in at least two digits |
| KeywordClusters.ClustersDrift | exporters/run_data.py:1168-1169 | a member need not overlap its cluster any more once the cluster has grown |
| RedirectDestination.ScoreIsAConfidence | exporters/run_data.py:2802-2808 | every score lies between 0 and 1 and rounding it again changes nothing |
| RedirectDestination.ScoreIsWeighted | exporters/run_data.py:2799-2805 | the score is 0.55 of path overlap, 0.35 of overlap with the title, or the heading if there is none, and 0.10 for an ancestor in the path, rounded |
| RedirectDestination.AncestorIff | exporters/run_data.py:2803-2804 | a candidate is an ancestor exactly if the source continues it, without its last slashes, after a slash |
| RedirectDestination.RoundingIsNearest | exporters/run_data.py:2805 | rounding is to a nearest ten-thousandth, an even one of two |
| RedirectDestination.ChooseIsChoice | exporters/run_data.py:2795-2814 | the loop's choice is the maximum positive score on another path, ties to the smallest URL |
| RedirectDestination.Destine | exporters/run_data.py:2789-2844 | the loop gives the specified answer |
| RedirectDestination.FoundIffFloorIsReached | exporters/run_data.py:2815-2826 | a target is found exactly if some page on another path scores at least 0.35 |
| RedirectDestination.MatchTells | exporters/run_data.py:2815-2844 | a match names a page of the inventory on another path with its topic, score and signals; none scores higher, nor as high with a smaller URL |
| RedirectDestination.OrderDoesNotMatter | exporters/run_data.py:2795-2814 | inventories with the same pages give the same target and confidence in any order, and the same answer when no URL has two contents |
| RedirectDestination.ConfidenceIsTheBestScore | exporters/run_data.py:2815-2837 | the confidence shown is the best score there is |
| Names.Registry.UniqueId | exporters/run_data.py:282-289 | ends, returns the first free candidate, and records it |
| Names.TriesAreBounded | exporters/run_data.py:285-287 | no more candidates are tried in vain than names are used |
| Names.IssuedIdsAreFresh | exporters/run_data.py:282-289 | successive ids differ from each other and from every earlier name, each its base or its base with a number |
| Names.Registry.SlugFor | exporters/run_data.py:1590-1594 | a page's slug is the first free name on its path slug |
| Names.Registry.SlugAll | exporters/run_data.py:1821-2125 | the slugs of all content assets differ from each other and from every earlier name |
| Names.PathSlugText | exporters/run_data.py:1590-1594 | a slug is not empty, in lower-case letters, digits and dashes, not led by a dash, and at most sixty characters but for its number |
| Names.PathSlugTells | exporters/run_data.py:1590-1594 | a path whose segments, joined by dashes, are slug text already is its own slug, up to sixty characters; one with nothing to show is the home page's |
| Names.RunBecomesADash | exporters/run_data.py:1592 | every run of other characters becomes one dash, and slug text stays |
| Names.UniqueSlug | app/views.py:519-527 | ends after at most as many suffixes as slugs are taken, and one more, with the first free one |
| Names.SlugFitsIff | app/views.py:520-526 | a slug keeps to the maximum exactly if its suffix does, or its base |
| Names.SlugFits | app/views.py:520-526 | so it fits whenever the maximum holds the fallback and the largest suffix that can be needed |
| Names.LimitedBaseTells | app/views.py:520-521 | a name that fits and neither starts nor ends with a dash is its own base; an empty one becomes `project`, cut to the maximum |
| Names.ShortenedTells | app/views.py:523-526 | a later slug is its number after a dash, behind as much of the base as leaves room for it |
| Names.ShortMaximumIsExceeded | app/views.py:520-526 | without that room it need not |
| PackagePaths.InQaFolderIsControl | exporters/paths.py:150-156 | the two control names below any QA folder are control files |
| PackagePaths.ControlFileIff | exporters/paths.py:150-156 | a path is a control file exactly if it is one of the two names directly below a folder whose name starts with `06_` |
| PackagePaths.FirstSourceIsFirst | exporters/manifest.py:209-213 | the richest available sibling format wins, and none is found only if there is none |
| PackagePaths.SourceIsOriginal | exporters/manifest.py:198-213 | a declared source exists, is another file of another format, and is itself no derivative |
| PackagePaths.DerivativeTells | exporters/manifest.py:198-213 | only .pdf, .html and .csv files have a source: the available .pptx, else .docx, else .xlsx of the same stem |
| PackagePaths.SuffixTells | exporters/manifest.py:207-210 | the suffix starts at the last dot of the name unless that is its first or last character |
| Manifest.PackageManifest.AddFile | exporters/manifest.py:75-108 | records the file the path leads to, through a symbolic path if need be, with its path in the tree, size, digest and source, never a control file; refuses, recording nothing, exactly if it leads to no file of the package or to a control file |
| Manifest.PackageManifest.AssertIntegrity | exporters/manifest.py:110-159 | accepts exactly the sound manifests: entries and payloads match one to one with the recorded digests, no digest twice, sound sources, nothing symbolic |
| Manifest.BuildManifest | exporters/run_package.py:538-572 | builds the specified entries in path order, or stops at the first refusal; every file of the tree not named as a control file has an entry with its size and digest, and every entry is that of a file |
| Manifest.FreshManifestIsSoundIff | exporters/run_package.py:554-572 | a fresh manifest passes its own check exactly if no two payloads have the same digest |
| Manifest.SymbolicPathsAreRefused | exporters/manifest.py:146-148 | a tree with a symbolic path is never accepted |
| Manifest.ControlFilesDoNotDisturb | exporters/manifest.py:161-195 | writing a control file, whatever it holds, leaves a sound manifest sound |
| Manifest.PackageManifest.Write | exporters/manifest.py:161-184 | writes the manifest's text exactly if the manifest is sound, into the QA folder, the legacy one only where there is no other, changing no other file; the manifest stays sound |
| Manifest.PackageManifest.WriteChecksums | exporters/manifest.py:186-195 | covers every payload and the manifest file once, in path order, and the manifest stays sound |
| Manifest.SourcesAreOriginals | exporters/run_package.py:570 | in a built manifest derivation has depth one |
| Manifest.SoundManifestPinsTheTree | exporters/manifest.py:110-159 | any two trees a manifest is sound for have the same payloads with the same digests |
| Manifest.SealPackage | exporters/run_package.py:700-705 | built, written and checksummed, a package without symbolic paths still passes exactly if no two payloads have the same digest; then every file of it has its entry, but for the two control files |

## Left out

- Page fields taken from HTML (titles, headings, schema types and so on): values the rules read, produced by the parser, which is a function here.
- Transport, DNS, TLS and HTTP framing: oracles; `SSRFGuard` is modelled from the answers on.
- `UrlNormalForm.NormalizeIsIdempotentIff`: without a `base`; joining URLs is library behaviour. The two optional steps (tracking filter, sort) are always on, as in every call of the repository.
- Errors of `normalize_url`: which of several errors is reported first is not stated.
- `Manifest.PackageManifest.AssertIntegrity`: which fault is reported first is in the code but not in the contract; entry paths that are not written in normal form count as missing.
- `Manifest.PackageManifest.Write`: the case that the QA folder's name is taken by a file; the JSON text is a function of the entries.
- Entry titles, media types, artifact types and approval states: table look-ups.
- Descriptions, severities, recommendations, weeks and priority scores of stored findings: single-branch arithmetic; titles of findings take the first of the group.
- `Findings.SiteRuleIsExact`: which pages the single-threshold rules choose; `DuplicateFields` and `TitleFinding` model the rules whose choice is an algorithm.
- Cluster coverage, primary URL, intent and evidence of keyword clusters: one scoring loop that the redirect choice already covers in a harder form.
- Tokenising of phrases and titles: a function passed in.
- Approval guards and permissions of user transitions: the model lets every transition the table allows happen, so what it proves holds with any guard.
- Event records, stage rows, market data and package dispatch: no part of the row protocol.
- The 4,000-character limit of a finding's description, which long URL listings can exceed.
