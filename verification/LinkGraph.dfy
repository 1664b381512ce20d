/** Redirect and canonical graphs (audit_engine/graph.py).  Every URL has at
    most one outgoing edge, so following edges from a source either leaves the
    graph or enters a cycle; each cycle is to be reported exactly once. */
module LinkGraph {
  import opened Outcomes
  import opened Sequences
  import opened Splitting
  import opened Text

  datatype Edge = Edge(target: string, evidence: string)

  type Edges = map<string, Edge>

  // ---------------------------------------------------------------- walks

  /** `path` follows the edges from its first node. */
  ghost predicate Walk(edges: Edges, path: seq<string>) {
    && |path| > 0
    && (forall k :: 0 <= k < |path| - 1 ==> path[k] in edges && path[k + 1] == edges[path[k]].target)
  }

  ghost function Last(path: seq<string>): string
    requires |path| > 0
  {
    path[|path| - 1]
  }

  ghost function Front(path: seq<string>): seq<string>
    requires |path| > 0
  {
    path[..|path| - 1]
  }

  /** The walk ended on a node it had already visited. */
  ghost predicate Looped(path: seq<string>)
    requires |path| > 0
  {
    Last(path) in Front(path)
  }

  /** A walk that visited no node twice before its last, and stopped because it
      revisited one or because no edge leaves it. */
  ghost predicate CompleteWalk(edges: Edges, start: string, path: seq<string>) {
    && Walk(edges, path) && path[0] == start
    && Distinct(Front(path))
    && (Looped(path) || Last(path) !in edges)
  }

  ghost function EvidenceAlong(edges: Edges, path: seq<string>): (evidence: seq<string>)
    requires Walk(edges, path)
    ensures |evidence| == |path| - 1
  {
    seq(|path| - 1, k requires 0 <= k < |path| - 1 => edges[path[k]].evidence)
  }

  /** Before its last node a walk visits distinct sources: by pigeonhole it has
      no more edges than the graph. */
  lemma WalkIsShort(edges: Edges, path: seq<string>)
    requires Walk(edges, path) && Distinct(Front(path))
    ensures |path| <= |edges| + 1
  {
    forall x | x in Front(path)
      ensures x in edges.Keys
    {
      var k :| 0 <= k < |path| - 1 && path[k] == x;
    }
    Pigeonhole(Front(path), edges.Keys);
    assert |edges.Keys| == |edges|;
  }

  /** Complete walks from one start are equal. */
  lemma {:induction false} WalksAgree(edges: Edges, start: string, p: seq<string>, q: seq<string>, k: nat)
    requires CompleteWalk(edges, start, p) && CompleteWalk(edges, start, q)
    requires k < |p| && k < |q|
    ensures p[k] == q[k]
  {
    if k > 0 {
      WalksAgree(edges, start, p, q, k - 1);
    }
  }

  lemma CompleteWalkIsUnique(edges: Edges, start: string, p: seq<string>, q: seq<string>)
    requires CompleteWalk(edges, start, p) && CompleteWalk(edges, start, q)
    ensures p == q
  {
    forall k | 0 <= k < |p| && k < |q|
      ensures p[k] == q[k]
    {
      WalksAgree(edges, start, p, q, k);
    }
    if |p| < |q| {
      LongerWalkWentOn(edges, p, q);
    } else if |q| < |p| {
      LongerWalkWentOn(edges, q, p);
    }
  }

  /** A walk that a longer one continues has not come to its end. */
  lemma LongerWalkWentOn(edges: Edges, p: seq<string>, q: seq<string>)
    requires 0 < |p| < |q| && Walk(edges, q) && Distinct(Front(q))
    requires forall k :: 0 <= k < |p| ==> p[k] == q[k]
    ensures Last(p) in edges && !Looped(p)
  {
    var n := |p| - 1;
    assert q[n] in edges && q[n] == Last(p);
    forall k | 0 <= k < n
      ensures p[k] != Last(p)
    {
      assert Front(q)[k] != Front(q)[n];
    }
  }

  /** Taking one more edge from a walk that has not repeated a node. */
  lemma OneMoreEdge(edges: Edges, path: seq<string>, next: seq<string>)
    requires Walk(edges, path) && Distinct(path) && Last(path) in edges
    requires next == path + [edges[Last(path)].target]
    ensures Walk(edges, next) && next[0] == path[0] && Front(next) == path && Last(next) == edges[Last(path)].target
    ensures EvidenceAlong(edges, next) == EvidenceAlong(edges, path) + [edges[Last(path)].evidence]
    ensures Last(next) !in path ==> Distinct(next)
  {
  }

  /** Follows edges from `start`, remembering where each node was first seen. */
  method WalkSingleEdge(start: string, edges: Edges, stepLimit: nat)
    returns (path: seq<string>, evidence: seq<string>, looped: bool)
    ensures Walk(edges, path) && path[0] == start && Distinct(Front(path))
    ensures evidence == EvidenceAlong(edges, path)
    ensures looped == Looped(path)
    ensures looped || Last(path) !in edges || |path| > stepLimit + 1
  {
    path := [start];
    evidence := [];
    var seen := map[start := 0];
    var current := start;
    while current in edges
      invariant Walk(edges, path) && path[0] == start && Distinct(path) && current == Last(path)
      invariant evidence == EvidenceAlong(edges, path)
      invariant forall x :: x in seen <==> x in path
      invariant |path| <= stepLimit + 1
      decreases stepLimit + 1 - |path|
    {
      var Edge(target, id) := edges[current];
      OneMoreEdge(edges, path, path + [target]);
      evidence := evidence + [id];
      path := path + [target];
      if target in seen {
        return path, evidence, true;
      }
      seen := seen[target := |path| - 1];
      current := target;
      if |path| > stepLimit + 1 {
        break;
      }
    }
    return path, evidence, false;
  }

  // --------------------------------------------------------------- cycles

  /** The nodes of `p` in order, each linked to the next and the last to the
      first. */
  ghost predicate Cycle(edges: Edges, p: seq<string>) {
    && Walk(edges, p) && Distinct(p)
    && Last(p) in edges && edges[Last(p)].target == p[0]
  }

  /** `nodes` is the node set of a cycle. */
  ghost predicate IsCycle(edges: Edges, nodes: set<string>) {
    exists p :: Cycle(edges, p) && Elements(p) == nodes
  }

  ghost predicate Closed(edges: Edges, nodes: set<string>) {
    forall x :: x in nodes ==> x in edges && edges[x].target in nodes
  }

  lemma CycleIsClosed(edges: Edges, p: seq<string>)
    requires Cycle(edges, p)
    ensures Closed(edges, Elements(p))
  {
    forall x | x in Elements(p)
      ensures x in edges && edges[x].target in p
    {
      var k :| 0 <= k < |p| && p[k] == x;
      if k + 1 < |p| {
        assert p[k + 1] in p;
      } else {
        assert p[0] in p;
      }
    }
  }

  lemma {:induction false} WalkStaysInClosed(edges: Edges, nodes: set<string>, p: seq<string>, from: nat, k: nat)
    requires Closed(edges, nodes) && Walk(edges, p) && from <= k < |p| && p[from] in nodes
    ensures p[k] in nodes
  {
    if from < k {
      WalkStaysInClosed(edges, nodes, p, from, k - 1);
    }
  }

  /** A cycle meeting a closed set lies inside it. */
  lemma CycleInsideClosed(edges: Edges, nodes: set<string>, p: seq<string>, x: string)
    requires Closed(edges, nodes) && Cycle(edges, p) && x in p && x in nodes
    ensures Elements(p) <= nodes
  {
    var j :| 0 <= j < |p| && p[j] == x;
    WalkStaysInClosed(edges, nodes, p, j, |p| - 1);
    forall y | y in p
      ensures y in nodes
    {
      var k :| 0 <= k < |p| && p[k] == y;
      WalkStaysInClosed(edges, nodes, p, 0, k);
    }
  }

  /** Two cycles are disjoint or the same. */
  lemma CyclesAreDisjointOrEqual(edges: Edges, p: seq<string>, q: seq<string>, x: string)
    requires Cycle(edges, p) && Cycle(edges, q) && x in p && x in q
    ensures Elements(p) == Elements(q)
  {
    CycleIsClosed(edges, p);
    CycleIsClosed(edges, q);
    CycleInsideClosed(edges, Elements(p), q, x);
    CycleInsideClosed(edges, Elements(q), p, x);
  }

  /** Python's `list.index`. */
  function IndexOf(s: seq<string>, x: string): (i: nat)
    requires x in s
    ensures i < |s| && s[i] == x && x !in s[..i]
  {
    if s[0] == x then 0
    else
      var i := IndexOf(s[1..], x);
      assert s[..i + 1] == [s[0]] + s[1..][..i];
      i + 1
  }

  /** The nodes of `path` from the first visit of its last node. */
  function LoopKey(path: seq<string>): set<string>
    requires |path| > 0
  {
    Elements(path[IndexOf(path, path[|path| - 1])..])
  }

  /** The stretch of a walk between two visits of one node is a cycle. */
  lemma ArcIsACycle(edges: Edges, path: seq<string>, i: nat)
    requires Walk(edges, path) && Distinct(Front(path)) && i < |path| - 1 && path[i] == Last(path)
    ensures Cycle(edges, path[i..|path| - 1])
  {
    var n := |path| - 1;
    var cycle := path[i..n];
    assert forall m :: 0 <= m < |cycle| ==> cycle[m] == Front(path)[i + m];
    forall m | 0 <= m < |cycle| - 1
      ensures cycle[m] in edges && cycle[m + 1] == edges[cycle[m]].target
    {
      assert path[i + m + 1] == edges[path[i + m]].target;
    }
    assert path[n] == edges[path[n - 1]].target;
  }

  lemma {:induction false} FirstVisitOfALoop(path: seq<string>)
    requires |path| > 0 && Looped(path)
    ensures IndexOf(path, Last(path)) < |path| - 1
  {
    var i := IndexOf(path, Last(path));
    assert forall m :: 0 <= m < i ==> path[..i][m] in path[..i];
  }

  /** A walk that loops ends in a cycle, and its key is that cycle's node set. */
  lemma LoopedWalkEndsInACycle(edges: Edges, start: string, path: seq<string>)
    returns (cycle: seq<string>)
    requires CompleteWalk(edges, start, path) && Looped(path)
    ensures Cycle(edges, cycle) && Elements(cycle) == LoopKey(path) && Last(path) in cycle
  {
    FirstVisitOfALoop(path);
    var i := IndexOf(path, Last(path));
    ArcIsACycle(edges, path, i);
    cycle := path[i..|path| - 1];
    assert cycle[0] == Last(path);
    assert path[i..] == cycle + [Last(path)];
  }

  /** Started on a cycle, a walk loops with exactly that cycle as its key. */
  lemma WalkFromACycle(edges: Edges, cycle: seq<string>, start: string, path: seq<string>)
    requires Cycle(edges, cycle) && start in cycle
    requires CompleteWalk(edges, start, path)
    ensures Looped(path) && LoopKey(path) == Elements(cycle)
  {
    CycleIsClosed(edges, cycle);
    WalkStaysInClosed(edges, Elements(cycle), path, 0, |path| - 1);
    var found := LoopedWalkEndsInACycle(edges, start, path);
    CyclesAreDisjointOrEqual(edges, found, cycle, Last(path));
  }

  // ------------------------------------------------- building the edge map

  datatype IssueCode = RedirectLoop | RedirectChain | RedirectTargetUnsafe | CanonicalLoop | CanonicalTargetUnsafe

  datatype Issue = Issue(code: IssueCode, urls: seq<string>, evidence: seq<string>)

  /** A declared link: a redirect, or a page with its canonical URL. */
  datatype Declared = Declared(source: string, target: string, evidence: string)

  /** What the URL layer decides: a URL's normal form, if it has one, and whether
      that normal form lies in an approved domain. */
  datatype Policy = Policy(normalize: string -> Option<string>, allowed: string -> bool)

  datatype GraphError = InvalidUrl | ConflictingTargets(source: string)

  /** A declared link whose two ends have normal forms. */
  datatype Link = Link(source: string, target: string, evidence: string)

  function Resolve(policy: Policy, link: Declared): Option<Link> {
    var source, target := policy.normalize(link.source), policy.normalize(link.target);
    if source.None? || target.None? then None else Some(Link(source.value, target.value, link.evidence))
  }

  ghost predicate Resolves(policy: Policy, declared: seq<Declared>, links: seq<Link>) {
    |links| <= |declared| && forall i :: 0 <= i < |links| ==> Resolve(policy, declared[i]) == Some(links[i])
  }

  /** One issue for each link that leaves the approved domains. */
  ghost function Unsafe(policy: Policy, code: IssueCode, links: seq<Link>): seq<Issue> {
    if links == [] then []
    else
      var n := |links| - 1;
      Unsafe(policy, code, links[..n])
      + (if policy.allowed(links[n].target) then []
         else [Issue(code, [links[n].source, links[n].target], [links[n].evidence])])
  }

  /** No source is linked to two different targets. */
  ghost predicate Consistent(links: seq<Link>) {
    forall i, j :: 0 <= i < j < |links| && links[i].source == links[j].source ==> links[i].target == links[j].target
  }

  /** The edge map after a series of links: a later one replaces an earlier one
      of the same source. */
  ghost function Declare(links: seq<Link>): Edges {
    if links == [] then map[]
    else
      var n := |links| - 1;
      Declare(links[..n])[links[n].source := Edge(links[n].target, links[n].evidence)]
  }

  lemma {:induction false} OneMoreLink(policy: Policy, code: IssueCode, links: seq<Link>, link: Link)
    ensures Declare(links + [link]) == Declare(links)[link.source := Edge(link.target, link.evidence)]
    ensures Unsafe(policy, code, links + [link])
      == Unsafe(policy, code, links)
         + (if policy.allowed(link.target) then [] else [Issue(code, [link.source, link.target], [link.evidence])])
  {
    assert (links + [link])[..|links|] == links;
  }

  /** The edges' sources are the links' sources, and an edge is its source's last
      link. */
  lemma {:induction false} EdgeIsTheLastLink(links: seq<Link>, source: string) returns (at: nat)
    ensures at <= |links| && (source in Declare(links) <==> at < |links|)
    ensures at < |links| ==>
      links[at].source == source && Declare(links)[source] == Edge(links[at].target, links[at].evidence)
    ensures forall k :: at < k < |links| ==> links[k].source != source
    ensures at == |links| ==> forall k :: 0 <= k < |links| ==> links[k].source != source
  {
    if links == [] {
      at := 0;
    } else {
      var n := |links| - 1;
      if links[n].source == source {
        at := n;
      } else {
        at := EdgeIsTheLastLink(links[..n], source);
        assert forall k :: 0 <= k < n ==> links[..n][k] == links[k];
        if at == n { at := n + 1; }
      }
    }
  }

  /** Adding a link that agrees with its source's edge makes no conflict. */
  lemma {:induction false} NoNewConflict(links: seq<Link>, link: Link)
    requires Consistent(links)
    requires link.source in Declare(links) ==> Declare(links)[link.source].target == link.target
    ensures Consistent(links + [link])
  {
    var at := EdgeIsTheLastLink(links, link.source);
    forall i | 0 <= i < |links| && links[i].source == link.source
      ensures links[i].target == link.target
    {
      if i < at { assert links[i].target == links[at].target; }
    }
  }

  /** The links read before the first one that has a URL without a normal form
      or, if `strict`, gives its source a second target; all of them if there is
      none. */
  ghost function ReadLinks(policy: Policy, declared: seq<Declared>, strict: bool): (links: seq<Link>)
    ensures |links| <= |declared|
  {
    if declared == [] then []
    else
      var n := |declared| - 1;
      var links := ReadLinks(policy, declared[..n], strict);
      if |links| < n || !CanFollow(policy, links, declared[n], strict) then links
      else links + [Resolve(policy, declared[n]).value]
  }

  /** The declared link can be read after these. */
  ghost predicate CanFollow(policy: Policy, links: seq<Link>, declared: Declared, strict: bool) {
    var link := Resolve(policy, declared);
    link.Some? && (strict ==> Consistent(links + [link.value]))
  }

  lemma {:induction false} ReadLinksAre(policy: Policy, declared: seq<Declared>, strict: bool, links: seq<Link>)
    requires Resolves(policy, declared, links) && (strict ==> Consistent(links))
    requires |links| < |declared| ==> !CanFollow(policy, links, declared[|links|], strict)
    ensures ReadLinks(policy, declared, strict) == links
  {
    if declared != [] {
      var n := |declared| - 1;
      if |links| <= n {
        assert |links| < n ==> declared[..n][|links|] == declared[|links|];
        ReadLinksAre(policy, declared[..n], strict, links);
      } else {
        FrontAndLast(links);
        ReadLinksAre(policy, declared[..n], strict, links[..n]);
        assert CanFollow(policy, links[..n], declared[n], strict);
      }
    }
  }

  /** One redirect with normal forms: its safety issue and its edge, unless its
      source leads elsewhere already. */
  method ReadRedirect(link: Link, policy: Policy, edges: Edges, issues: seq<Issue>, ghost links: seq<Link>)
    returns (fits: bool, edges': Edges, issues': seq<Issue>)
    requires edges == Declare(links) && issues == Unsafe(policy, RedirectTargetUnsafe, links) && Consistent(links)
    ensures fits <==> Consistent(links + [link])
    ensures fits ==>
      edges' == Declare(links + [link]) && issues' == Unsafe(policy, RedirectTargetUnsafe, links + [link])
  {
    OneMoreLink(policy, RedirectTargetUnsafe, links, link);
    edges', issues' := edges, issues;
    if !policy.allowed(link.target) {
      issues' := issues + [Issue(RedirectTargetUnsafe, [link.source, link.target], [link.evidence])];
    }
    if link.source in edges && edges[link.source].target != link.target {
      ghost var at := EdgeIsTheLastLink(links, link.source);
      assert (links + [link])[at].source == (links + [link])[|links|].source;
      return false, edges', issues';
    }
    NoNewConflict(links, link);
    return true, edges[link.source := Edge(link.target, link.evidence)], issues';
  }

  // ------------------------------------------ the graph, told by what is declared

  /** The normal forms of a declared link's two ends. */
  ghost predicate Ends(policy: Policy, declared: Declared, source: string, target: string) {
    policy.normalize(declared.source) == Some(source) && policy.normalize(declared.target) == Some(target)
  }

  /** Link `i` makes this edge, and no later link but those `without` leaves the
      same source. */
  ghost predicate Makes(
    policy: Policy, declared: seq<Declared>, skip: Declared -> bool, i: nat, source: string, edge: Edge)
  {
    && i < |declared| && !skip(declared[i])
    && Ends(policy, declared[i], source, edge.target) && declared[i].evidence == edge.evidence
    && forall k :: i < k < |declared| && !skip(declared[k]) ==> policy.normalize(declared[k].source) != Some(source)
  }

  /** The edges lead from normal sources to normal targets, each as its last
      declaration has it; and every declared link has its edge, but for those to
      skip. */
  ghost predicate IsGraphOf(policy: Policy, declared: seq<Declared>, skip: Declared -> bool, edges: Edges) {
    && (forall source :: source in edges ==>
          exists i: nat :: Makes(policy, declared, skip, i, source, edges[source]))
    && (forall i :: 0 <= i < |declared| && !skip(declared[i]) ==>
          policy.normalize(declared[i].source).Some? && policy.normalize(declared[i].source).value in edges)
  }

  /** One issue for each declared link to a target outside the approved domains, in
      order: its source, its target and its evidence. */
  ghost predicate TellsUnsafe(
    policy: Policy, code: IssueCode, declared: seq<Declared>, issues: seq<Issue>, at: seq<nat>)
  {
    && |at| == |issues|
    && (forall i, j :: 0 <= i < j < |at| ==> at[i] < at[j])
    && (forall k: nat :: k in at <==>
          k < |declared| && policy.normalize(declared[k].target).Some?
          && !policy.allowed(policy.normalize(declared[k].target).value))
    && (forall i :: 0 <= i < |at| ==> at[i] < |declared| && IsUnsafeIssue(policy, code, declared[at[i]], issues[i]))
  }

  /** They are told so, at some positions. */
  ghost predicate UnsafeAreTold(policy: Policy, code: IssueCode, declared: seq<Declared>, issues: seq<Issue>) {
    exists at: seq<nat> :: TellsUnsafe(policy, code, declared, issues, at)
  }

  ghost predicate IsUnsafeIssue(policy: Policy, code: IssueCode, declared: Declared, issue: Issue) {
    && |issue.urls| == 2 && Ends(policy, declared, issue.urls[0], issue.urls[1])
    && issue.code == code && issue.evidence == [declared.evidence]
  }

  predicate NeverSkip(declared: Declared) {
    false
  }

  lemma ResolvedEnds(policy: Policy, declared: Declared, link: Link)
    ensures Resolve(policy, declared) == Some(link) <==>
      Ends(policy, declared, link.source, link.target) && declared.evidence == link.evidence
    ensures Resolve(policy, declared) == None <==>
      policy.normalize(declared.source) == None || policy.normalize(declared.target) == None
  {
  }

  lemma {:induction false} DeclaredGraph(policy: Policy, declared: seq<Declared>, links: seq<Link>)
    requires Resolves(policy, declared, links) && |links| == |declared|
    ensures IsGraphOf(policy, declared, NeverSkip, Declare(links))
  {
    forall source | source in Declare(links)
      ensures exists i: nat :: Makes(policy, declared, NeverSkip, i, source, Declare(links)[source])
    {
      var at := EdgeIsTheLastLink(links, source);
      assert Resolve(policy, declared[at]) == Some(links[at]);
      forall k | at < k < |declared|
        ensures policy.normalize(declared[k].source) != Some(source)
      {
        assert Resolve(policy, declared[k]) == Some(links[k]);
      }
      assert Makes(policy, declared, NeverSkip, at, source, Declare(links)[source]);
    }
    forall i | 0 <= i < |declared|
      ensures policy.normalize(declared[i].source).Some? && policy.normalize(declared[i].source).value in Declare(links)
    {
      assert Resolve(policy, declared[i]) == Some(links[i]);
      var at := EdgeIsTheLastLink(links, links[i].source);
    }
  }

  lemma {:induction false} UnsafeIsTold(policy: Policy, code: IssueCode, declared: seq<Declared>, links: seq<Link>)
    returns (at: seq<nat>)
    requires Resolves(policy, declared, links) && |links| == |declared|
    ensures TellsUnsafe(policy, code, declared, Unsafe(policy, code, links), at)
  {
    at := [];
    if links != [] {
      var n := |links| - 1;
      assert forall i :: 0 <= i < n ==> declared[..n][i] == declared[i] && links[..n][i] == links[i];
      var earlier := UnsafeIsTold(policy, code, declared[..n], links[..n]);
      assert Resolve(policy, declared[n]) == Some(links[n]);
      at := earlier + (if policy.allowed(links[n].target) then [] else [n]);
      OneMoreUnsafe(policy, code, declared, links, earlier, at);
    }
  }

  lemma {:induction false} OneMoreUnsafe(
    policy: Policy, code: IssueCode, declared: seq<Declared>, links: seq<Link>, earlier: seq<nat>, at: seq<nat>)
    requires links != [] && |links| == |declared|
    requires Resolve(policy, declared[|links| - 1]) == Some(links[|links| - 1])
    requires TellsUnsafe(policy, code, declared[..|links| - 1], Unsafe(policy, code, links[..|links| - 1]), earlier)
    requires at == earlier + (if policy.allowed(links[|links| - 1].target) then [] else [|links| - 1])
    ensures TellsUnsafe(policy, code, declared, Unsafe(policy, code, links), at)
  {
    var n := |links| - 1;
    assert forall i :: 0 <= i < n ==> declared[..n][i] == declared[i];
    assert forall k: nat :: k in at <==> k in earlier || (k == n && !policy.allowed(links[n].target));
    if policy.allowed(links[n].target) { assert at == earlier; }
  }

  /** One source is not given two targets. */
  ghost predicate Agree(policy: Policy, a: Declared, b: Declared) {
    policy.normalize(a.source) == policy.normalize(b.source) ==>
      policy.normalize(a.target) == policy.normalize(b.target)
  }

  /** An earlier link has the same source and another target. */
  ghost predicate ConflictsBefore(policy: Policy, declared: seq<Declared>, n: nat, source: string)
    requires n < |declared|
  {
    && policy.normalize(declared[n].source) == Some(source) && policy.normalize(declared[n].target).Some?
    && exists i :: 0 <= i < n && policy.normalize(declared[i].source) == Some(source)
         && policy.normalize(declared[i].target) != policy.normalize(declared[n].target)
  }

  /** Why reading stopped at link `n`: an end without a normal form, or a second
      target for its source; nothing before it is amiss. */
  ghost predicate StopsAt(policy: Policy, declared: seq<Declared>, n: nat, error: GraphError) {
    && n < |declared|
    && (forall i :: 0 <= i < n ==>
          policy.normalize(declared[i].source).Some? && policy.normalize(declared[i].target).Some?)
    && (forall i, j :: 0 <= i < j < n ==> Agree(policy, declared[i], declared[j]))
    && (error == InvalidUrl ==>
          policy.normalize(declared[n].source) == None || policy.normalize(declared[n].target) == None)
    && (error.ConflictingTargets? ==> ConflictsBefore(policy, declared, n, error.source))
  }

  lemma {:induction false} ReadingStopsAt(policy: Policy, declared: seq<Declared>, links: seq<Link>)
    requires Resolves(policy, declared, links) && Consistent(links) && |links| < |declared|
    requires !CanFollow(policy, links, declared[|links|], true)
    ensures StopsAt(policy, declared, |links|, FailureAt(policy, declared[|links|]))
  {
    var n := |links|;
    forall i | 0 <= i < n
      ensures Ends(policy, declared[i], links[i].source, links[i].target)
    {
      assert Resolve(policy, declared[i]) == Some(links[i]);
    }
    var last := Resolve(policy, declared[n]);
    if last.Some? {
      assert !Consistent(links + [last.value]);
      var i :| 0 <= i < n && links[i].source == last.value.source && links[i].target != last.value.target;
      assert policy.normalize(declared[i].source) == Some(last.value.source);
    }
  }

  lemma AllAreRead(policy: Policy, declared: seq<Declared>, links: seq<Link>)
    requires Resolves(policy, declared, links) && Consistent(links) && |links| == |declared|
    ensures ReadLinks(policy, declared, true) == links
    ensures IsGraphOf(policy, declared, NeverSkip, Declare(links))
    ensures UnsafeAreTold(policy, RedirectTargetUnsafe, declared, Unsafe(policy, RedirectTargetUnsafe, links))
  {
    ReadLinksAre(policy, declared, true, links);
    DeclaredGraph(policy, declared, links);
    var at := UnsafeIsTold(policy, RedirectTargetUnsafe, declared, links);
  }

  lemma StoppedThere(policy: Policy, declared: seq<Declared>, links: seq<Link>)
    requires Resolves(policy, declared, links) && Consistent(links) && |links| < |declared|
    requires !CanFollow(policy, links, declared[|links|], true)
    ensures ReadLinks(policy, declared, true) == links
    ensures StopsAt(policy, declared, |links|, FailureAt(policy, declared[|links|]))
  {
    ReadLinksAre(policy, declared, true, links);
    ReadingStopsAt(policy, declared, links);
  }

  /** Reads the redirects into the edge map.  It fails exactly at the first
      redirect that has a URL without a normal form or gives its source a second
      target. */
  method BuildRedirects(redirects: seq<Declared>, policy: Policy)
    returns (built: Result<(Edges, seq<Issue>), GraphError>)
    ensures var links := ReadLinks(policy, redirects, true);
      match built
      case Ok(value) =>
        |links| == |redirects| && value == (Declare(links), Unsafe(policy, RedirectTargetUnsafe, links))
      case Err(error) =>
        |links| < |redirects| && error == FailureAt(policy, redirects[|links|])
    ensures built.Ok? ==>
      && IsGraphOf(policy, redirects, NeverSkip, built.value.0)
      && UnsafeAreTold(policy, RedirectTargetUnsafe, redirects, built.value.1)
    ensures built.Err? ==> StopsAt(policy, redirects, |ReadLinks(policy, redirects, true)|, built.error)
  {
    var edges: Edges := map[];
    var issues: seq<Issue> := [];
    ghost var links := [];
    for n := 0 to |redirects|
      invariant |links| == n && Resolves(policy, redirects, links) && Consistent(links)
      invariant edges == Declare(links)
      invariant issues == Unsafe(policy, RedirectTargetUnsafe, links)
    {
      var resolved := Resolve(policy, redirects[n]);
      if resolved.None? {
        StoppedThere(policy, redirects, links);
        return Err(InvalidUrl);
      }
      var fits;
      fits, edges, issues := ReadRedirect(resolved.value, policy, edges, issues, links);
      if !fits {
        StoppedThere(policy, redirects, links);
        return Err(ConflictingTargets(resolved.value.source));
      }
      links := links + [resolved.value];
    }
    AllAreRead(policy, redirects, links);
    return Ok((edges, issues));
  }

  /** Why a link cannot be read: it is no URL, or else it conflicts. */
  function FailureAt(policy: Policy, declared: Declared): GraphError {
    var link := Resolve(policy, declared);
    if link.None? then InvalidUrl else ConflictingTargets(link.value.source)
  }

  /** So every redirect is read exactly if all of them have normal forms and no
      source has two targets. */
  lemma {:induction false} AllReadIff(policy: Policy, declared: seq<Declared>)
    ensures |ReadLinks(policy, declared, true)| == |declared| <==>
      exists links :: |links| == |declared| && Resolves(policy, declared, links) && Consistent(links)
  {
    if links :| |links| == |declared| && Resolves(policy, declared, links) && Consistent(links) {
      ReadLinksAre(policy, declared, true, links);
    }
    ReadLinksResolve(policy, declared);
  }

  lemma {:induction false} ReadLinksResolve(policy: Policy, declared: seq<Declared>)
    ensures Resolves(policy, declared, ReadLinks(policy, declared, true))
    ensures Consistent(ReadLinks(policy, declared, true))
  {
    if declared != [] { ReadLinksResolve(policy, declared[..|declared| - 1]); }
  }

  // ------------------------------------------------------------- the report

  /** One edge more on a walk without repetitions. */
  lemma WalkGoesOn(edges: Edges, path: seq<string>)
    requires Walk(edges, path) && Distinct(path) && Last(path) in edges
    ensures var next := path + [edges[Last(path)].target];
      && Walk(edges, next) && Front(next) == path && |next| <= |edges| + 1
      && (if Last(next) in path then CompleteWalk(edges, path[0], next) else Distinct(next))
  {
    var next := path + [edges[Last(path)].target];
    assert Front(next) == path;
    WalkIsShort(edges, next);
  }

  /** The walk the code takes from a source, as a function: edges are followed
      until a node comes back or no edge leaves.  By pigeonhole it ends. */
  ghost function Follow(edges: Edges, path: seq<string>): (walk: seq<string>)
    requires Walk(edges, path) && Distinct(path)
    ensures CompleteWalk(edges, path[0], walk)
    decreases |edges| + 1 - |path|
  {
    if Last(path) !in edges then
      path
    else
      WalkGoesOn(edges, path);
      var next := path + [edges[Last(path)].target];
      if Last(next) in path then next else Follow(edges, next)
  }

  lemma WalkExists(edges: Edges, source: string)
    ensures exists walk :: CompleteWalk(edges, source, walk)
  {
    var walk := Follow(edges, [source]);
  }

  /** The complete walk from a source: it exists and is unique. */
  ghost function WalkFrom(edges: Edges, source: string): (walk: seq<string>)
    ensures CompleteWalk(edges, source, walk)
  {
    WalkExists(edges, source);
    var walk :| CompleteWalk(edges, source, walk);
    walk
  }

  /** The step limit the validators pass is never what ends a walk. */
  lemma StepLimitIsNeverReached(edges: Edges, start: string, path: seq<string>)
    requires Walk(edges, path) && path[0] == start && Distinct(Front(path))
    requires Looped(path) || Last(path) !in edges || |path| > |edges| + 2
    ensures path == WalkFrom(edges, start)
  {
    WalkIsShort(edges, path);
    CompleteWalkIsUnique(edges, start, path, WalkFrom(edges, start));
  }

  /** Whether the walk from `source` loops around the node set `nodes`. */
  ghost predicate LoopsAround(edges: Edges, source: string, nodes: set<string>) {
    var walk := WalkFrom(edges, source);
    Looped(walk) && LoopKey(walk) == nodes
  }

  ghost predicate Chained(edges: Edges, source: string, maxHops: Option<int>) {
    var walk := WalkFrom(edges, source);
    !Looped(walk) && maxHops.Some? && |walk| - 1 > maxHops.value
  }

  ghost function IssueFrom(edges: Edges, source: string, loop: IssueCode): Issue {
    var walk := WalkFrom(edges, source);
    Issue(if Looped(walk) then loop else RedirectChain, walk, Dedup(EvidenceAlong(edges, walk)))
  }

  /** A source is reported when it is the first in `order` to loop around its
      cycle, or when its chain is too long. */
  ghost predicate Reports(edges: Edges, order: seq<string>, k: nat, maxHops: Option<int>)
    requires k < |order|
  {
    || Chained(edges, order[k], maxHops)
    || (Looped(WalkFrom(edges, order[k]))
        && forall j :: 0 <= j < k ==> !LoopsAround(edges, order[j], LoopKey(WalkFrom(edges, order[k]))))
  }

  /** The positions in `order[..k]` of the reported sources, ascending. */
  ghost function Reported(edges: Edges, order: seq<string>, k: nat, maxHops: Option<int>): (from: seq<nat>)
    requires k <= |order|
    ensures forall m :: m in from <==> 0 <= m < k && Reports(edges, order, m, maxHops)
    ensures forall i :: 0 <= i < |from| ==> from[i] < k
    ensures forall i, j :: 0 <= i < j < |from| ==> from[i] < from[j]
  {
    if k == 0 then []
    else
      var earlier := Reported(edges, order, k - 1, maxHops);
      if Reports(edges, order, k - 1, maxHops) then earlier + [k - 1] else earlier
  }

  ghost function Issues(edges: Edges, order: seq<string>, from: seq<nat>, loop: IssueCode): (issues: seq<Issue>)
    requires forall i :: 0 <= i < |from| ==> from[i] < |order|
    ensures |issues| == |from|
    ensures forall i :: 0 <= i < |from| ==> issues[i] == IssueFrom(edges, order[from[i]], loop)
  {
    seq(|from|, i requires 0 <= i < |from| => IssueFrom(edges, order[from[i]], loop))
  }

  /** The walk issues of a graph, its sources taken in sorted order. */
  ghost function Report(edges: Edges, loop: IssueCode, maxHops: Option<int>): seq<Issue> {
    var order := Sorted(edges.Keys);
    Issues(edges, order, Reported(edges, order, |order|, maxHops), loop)
  }

  // ------------------------------------------------- each cycle exactly once

  /** A cycle is entered by the walk of some source. */
  lemma CycleHasASource(edges: Edges, nodes: set<string>) returns (source: string)
    requires IsCycle(edges, nodes)
    ensures source in edges && LoopsAround(edges, source, nodes)
  {
    var cycle :| Cycle(edges, cycle) && Elements(cycle) == nodes;
    source := cycle[0];
    CycleIsClosed(edges, cycle);
    WalkFromACycle(edges, cycle, source, WalkFrom(edges, source));
  }

  lemma {:induction false} EarliestLoopingSource(
    edges: Edges, order: seq<string>, nodes: set<string>, k: nat)
    returns (first: nat)
    requires k < |order| && LoopsAround(edges, order[k], nodes)
    ensures first <= k && LoopsAround(edges, order[first], nodes)
    ensures forall j :: 0 <= j < first ==> !LoopsAround(edges, order[j], nodes)
  {
    if j: nat :| j < k && LoopsAround(edges, order[j], nodes) {
      first := EarliestLoopingSource(edges, order, nodes, j);
    } else {
      first := k;
    }
  }

  /** Completeness: every cycle has a loop issue. */
  lemma EveryCycleIsReported(edges: Edges, loop: IssueCode, maxHops: Option<int>, nodes: set<string>)
    returns (i: nat)
    requires loop != RedirectChain && IsCycle(edges, nodes)
    ensures var issues := Report(edges, loop, maxHops);
      i < |issues| && issues[i].code == loop && LoopKey(issues[i].urls) == nodes
  {
    var order := Sorted(edges.Keys);
    var source := CycleHasASource(edges, nodes);
    var k :| 0 <= k < |order| && order[k] == source;
    var first := EarliestLoopingSource(edges, order, nodes, k);
    assert Reports(edges, order, first, maxHops);
    var from := Reported(edges, order, |order|, maxHops);
    i :| 0 <= i < |from| && from[i] == first;
  }

  /** A reported loop's source comes before every other source that leads into
      the same cycle. */
  lemma ReportedLoopComesFirst(edges: Edges, order: seq<string>, k: nat, m: nat, maxHops: Option<int>)
    requires k < |order| && m < |order| && Looped(WalkFrom(edges, order[k])) && Reports(edges, order, k, maxHops)
    requires LoopsAround(edges, order[m], LoopKey(WalkFrom(edges, order[k])))
    ensures k <= m
  {
  }

  /** A loop issue's walk starts at the smallest source that leads into its
      cycle. */
  lemma {:induction false} LoopIsReportedFromItsLeastSource(
    edges: Edges, loop: IssueCode, maxHops: Option<int>, i: nat, source: string)
    requires loop != RedirectChain
    requires i < |Report(edges, loop, maxHops)| && Report(edges, loop, maxHops)[i].code == loop
    requires source in edges && LoopsAround(edges, source, LoopKey(Report(edges, loop, maxHops)[i].urls))
    ensures source == Report(edges, loop, maxHops)[i].urls[0] || Less(Report(edges, loop, maxHops)[i].urls[0], source)
  {
    var order := Sorted(edges.Keys);
    var from := Reported(edges, order, |order|, maxHops);
    var k := from[i];
    assert k in from;
    var m :| 0 <= m < |order| && order[m] == source;
    ReportedLoopComesFirst(edges, order, k, m, maxHops);
    assert WalkFrom(edges, order[k])[0] == order[k];
  }

  /** Soundness: a loop issue's key is the node set of a cycle of the graph. */
  lemma ReportedLoopsAreCycles(edges: Edges, loop: IssueCode, maxHops: Option<int>, i: nat)
    requires loop != RedirectChain
    requires i < |Report(edges, loop, maxHops)| && Report(edges, loop, maxHops)[i].code == loop
    ensures IsCycle(edges, LoopKey(Report(edges, loop, maxHops)[i].urls))
  {
    var order := Sorted(edges.Keys);
    var source := order[Reported(edges, order, |order|, maxHops)[i]];
    var cycle := LoopedWalkEndsInACycle(edges, source, WalkFrom(edges, source));
  }

  /** No cycle is reported twice. */
  lemma LoopsAreReportedOnce(edges: Edges, loop: IssueCode, maxHops: Option<int>, i: nat, j: nat)
    requires loop != RedirectChain && i < j < |Report(edges, loop, maxHops)|
    requires Report(edges, loop, maxHops)[i].code == loop && Report(edges, loop, maxHops)[j].code == loop
    ensures LoopKey(Report(edges, loop, maxHops)[i].urls) != LoopKey(Report(edges, loop, maxHops)[j].urls)
  {
    var order := Sorted(edges.Keys);
    var from := Reported(edges, order, |order|, maxHops);
    assert from[j] in from && from[i] in from;
    assert Reports(edges, order, from[j], maxHops);
    assert !LoopsAround(edges, order[from[i]], LoopKey(WalkFrom(edges, order[from[j]])));
  }

  /** A chain issue is reported for a source exactly when its walk ends at a
      non-source after more than `maxHops` edges. */
  lemma ChainIffTooManyHops(edges: Edges, loop: IssueCode, maxHops: Option<int>, source: string)
    requires loop != RedirectChain && source in edges
    ensures Chained(edges, source, maxHops) <==>
      exists i :: 0 <= i < |Report(edges, loop, maxHops)| && Report(edges, loop, maxHops)[i].code == RedirectChain
                  && Report(edges, loop, maxHops)[i].urls[0] == source
  {
    var order := Sorted(edges.Keys);
    var from := Reported(edges, order, |order|, maxHops);
    if Chained(edges, source, maxHops) {
      var k :| 0 <= k < |order| && order[k] == source;
      assert Reports(edges, order, k, maxHops);
      var i :| 0 <= i < |from| && from[i] == k;
      assert Report(edges, loop, maxHops)[i] == IssueFrom(edges, source, loop);
    }
    forall i | 0 <= i < |from| && Report(edges, loop, maxHops)[i].code == RedirectChain
               && Report(edges, loop, maxHops)[i].urls[0] == source
      ensures Chained(edges, source, maxHops)
    {
      assert from[i] in from && Reports(edges, order, from[i], maxHops);
    }
  }

  // ---------------------------------------------------------- the validators

  /** The loop keys met at the first `k` sources. */
  ghost function LoopKeys(edges: Edges, order: seq<string>, k: nat): (keys: set<set<string>>)
    requires k <= |order|
    ensures forall nodes :: nodes in keys <==> exists j :: 0 <= j < k && LoopsAround(edges, order[j], nodes)
  {
    if k == 0 then {}
    else
      var walk := WalkFrom(edges, order[k - 1]);
      LoopKeys(edges, order, k - 1) + (if Looped(walk) then {LoopKey(walk)} else {})
  }

  lemma {:induction false} LoopIsNewIffReported(edges: Edges, order: seq<string>, k: nat, maxHops: Option<int>)
    requires k < |order| && Looped(WalkFrom(edges, order[k]))
    ensures Reports(edges, order, k, maxHops) <==> LoopKey(WalkFrom(edges, order[k])) !in LoopKeys(edges, order, k)
  {
  }

  lemma ReportOneMore(edges: Edges, order: seq<string>, k: nat, loop: IssueCode, maxHops: Option<int>)
    requires k < |order|
    ensures Issues(edges, order, Reported(edges, order, k + 1, maxHops), loop)
      == Issues(edges, order, Reported(edges, order, k, maxHops), loop)
         + (if Reports(edges, order, k, maxHops) then [IssueFrom(edges, order[k], loop)] else [])
  {
  }

  /** The whole validator: unsafe targets in order, then loops and chains; or the
      first failure to read a redirect. */
  method ValidateRedirectGraph(redirects: seq<Declared>, policy: Policy, maxHops: int)
    returns (issues: Result<seq<Issue>, GraphError>)
    ensures var links := ReadLinks(policy, redirects, true);
      match issues
      case Ok(value) =>
        && |links| == |redirects|
        && value == Unsafe(policy, RedirectTargetUnsafe, links) + Report(Declare(links), RedirectLoop, Some(maxHops))
      case Err(error) => |links| < |redirects| && error == FailureAt(policy, redirects[|links|])
    ensures var links := ReadLinks(policy, redirects, true);
      if issues.Err? then StopsAt(policy, redirects, |links|, issues.error)
      else
        && IsGraphOf(policy, redirects, NeverSkip, Declare(links))
        && UnsafeAreTold(policy, RedirectTargetUnsafe, redirects, Unsafe(policy, RedirectTargetUnsafe, links))
  {
    var built := BuildRedirects(redirects, policy);
    if built.Err? {
      return Err(built.error);
    }
    var walks := EmitRedirectIssues(built.value.0, maxHops);
    return Ok(built.value.1 + walks);
  }

  /** Every chain emitted so far starts at one of the first `k` sources. */
  ghost predicate StartBefore(chains: set<seq<string>>, order: seq<string>, k: nat) {
    k <= |order| && forall path :: path in chains ==> |path| > 0 && exists j :: 0 <= j < k && order[j] == path[0]
  }

  /** So the next source's chain is never mistaken for an emitted one. */
  lemma ChainIsNew(chains: set<seq<string>>, order: seq<string>, k: nat, path: seq<string>)
    requires k < |order| && Distinct(order) && StartBefore(chains, order, k)
    requires |path| > 0 && path[0] == order[k]
    ensures path !in chains && StartBefore(chains + {path}, order, k + 1)
  {
  }

  /** The walk as the validators call for it, with their step limit. */
  method WalkOf(source: string, edges: Edges) returns (path: seq<string>, evidence: seq<string>, looped: bool)
    ensures path == WalkFrom(edges, source)
    ensures evidence == EvidenceAlong(edges, path)
    ensures looped == Looped(path)
  {
    path, evidence, looped := WalkSingleEdge(source, edges, |edges| + 1);
    StepLimitIsNeverReached(edges, source, path);
  }

  /** One source's turn: its loop, unless already emitted, or its long chain. */
  method EmitRedirectIssue(edges: Edges, order: seq<string>, k: nat, maxHops: int,
                           emittedLoops: set<set<string>>, emittedChains: set<seq<string>>)
    returns (loops: set<set<string>>, chains: set<seq<string>>, issue: seq<Issue>)
    requires k < |order| && Distinct(order)
    requires emittedLoops == LoopKeys(edges, order, k)
    requires StartBefore(emittedChains, order, k)
    ensures loops == LoopKeys(edges, order, k + 1)
    ensures StartBefore(chains, order, k + 1)
    ensures issue == if Reports(edges, order, k, Some(maxHops)) then [IssueFrom(edges, order[k], RedirectLoop)] else []
  {
    loops, chains, issue := emittedLoops, emittedChains, [];
    var path, evidence, looped := WalkOf(order[k], edges);
    if looped {
      LoopIsNewIffReported(edges, order, k, Some(maxHops));
      var loopKey := LoopKey(path);
      if loopKey !in emittedLoops {
        loops := emittedLoops + {loopKey};
        issue := [Issue(RedirectLoop, path, Dedup(evidence))];
      }
    } else if |path| - 1 > maxHops {
      ChainIsNew(emittedChains, order, k, path);
      if path !in emittedChains {
        chains := emittedChains + {path};
        issue := [Issue(RedirectChain, path, Dedup(evidence))];
      }
    }
  }

  method EmitRedirectIssues(edges: Edges, maxHops: int) returns (issues: seq<Issue>)
    ensures issues == Report(edges, RedirectLoop, Some(maxHops))
  {
    var order := Sorted(edges.Keys);
    var loops: set<set<string>>, chains: set<seq<string>> := {}, {};
    issues := [];
    AscendingIsDistinct(order);
    for k := 0 to |order|
      invariant loops == LoopKeys(edges, order, k)
      invariant StartBefore(chains, order, k)
      invariant issues == Issues(edges, order, Reported(edges, order, k, Some(maxHops)), RedirectLoop)
    {
      ReportOneMore(edges, order, k, RedirectLoop, Some(maxHops));
      var issue;
      loops, chains, issue := EmitRedirectIssue(edges, order, k, maxHops, loops, chains);
      issues := issues + issue;
    }
  }

  /** A crawled page and the canonical URL it declares, if any. */
  datatype CanonicalPage = CanonicalPage(url: string, canonical: Option<string>, evidence: string)

  function Canonicals(pages: seq<CanonicalPage>): seq<Declared> {
    if pages == [] then []
    else
      var n := |pages| - 1;
      Canonicals(pages[..n]) + (if HasCanonical(pages[n]) then [DeclaredBy(pages[n])] else [])
  }

  /** Canonicals that point a page at itself make no edge. */
  ghost function Elsewhere(links: seq<Link>): seq<Link> {
    if links == [] then []
    else
      var n := |links| - 1;
      Elsewhere(links[..n]) + (if links[n].target != links[n].source then [links[n]] else [])
  }

  lemma {:induction false} ElsewhereOneMore(links: seq<Link>, link: Link)
    ensures Elsewhere(links + [link]) ==
      if link.target != link.source then Elsewhere(links) + [link] else Elsewhere(links)
  {
    assert (links + [link])[..|links|] == links;
  }

  /** One canonical link: its safety issue and its edge, unless it points the
      page at itself. */
  method ReadCanonical(link: Link, policy: Policy, edges: Edges, issues: seq<Issue>, ghost links: seq<Link>)
    returns (edges': Edges, issues': seq<Issue>)
    requires edges == Declare(Elsewhere(links)) && issues == Unsafe(policy, CanonicalTargetUnsafe, links)
    ensures edges' == Declare(Elsewhere(links + [link]))
    ensures issues' == Unsafe(policy, CanonicalTargetUnsafe, links + [link])
  {
    OneMoreLink(policy, CanonicalTargetUnsafe, links, link);
    OneMoreLink(policy, CanonicalTargetUnsafe, Elsewhere(links), link);
    ElsewhereOneMore(links, link);
    edges', issues' := edges, issues;
    if !policy.allowed(link.target) {
      issues' := issues + [Issue(CanonicalTargetUnsafe, [link.source, link.target], [link.evidence])];
    }
    if link.target != link.source {
      edges' := edges[link.source := Edge(link.target, link.evidence)];
    }
  }

  predicate HasCanonical(page: CanonicalPage) {
    page.canonical.Some? && page.canonical.value != ""
  }

  function DeclaredBy(page: CanonicalPage): Declared
    requires HasCanonical(page)
  {
    Declared(page.url, page.canonical.value, page.evidence)
  }

  /** One page: nothing to do without a canonical, an error if it is no URL. */
  method ReadPage(page: CanonicalPage, policy: Policy, edges: Edges, issues: seq<Issue>, ghost links: seq<Link>)
    returns (read: bool, edges': Edges, issues': seq<Issue>, ghost links': seq<Link>)
    requires edges == Declare(Elsewhere(links)) && issues == Unsafe(policy, CanonicalTargetUnsafe, links)
    ensures edges' == Declare(Elsewhere(links')) && issues' == Unsafe(policy, CanonicalTargetUnsafe, links')
    ensures read <==> HasCanonical(page) ==> Resolve(policy, DeclaredBy(page)).Some?
    ensures links' == if read && HasCanonical(page) then links + [Resolve(policy, DeclaredBy(page)).value] else links
  {
    read, edges', issues', links' := true, edges, issues, links;
    if HasCanonical(page) {
      var resolved := Resolve(policy, DeclaredBy(page));
      if resolved.None? {
        return false, edges, issues, links;
      }
      edges', issues' := ReadCanonical(resolved.value, policy, edges, issues, links);
      links' := links + [resolved.value];
    }
  }

  /** The links read so far are those of the pages read so far. */
  ghost predicate ReadUpTo(pages: seq<CanonicalPage>, policy: Policy, n: nat, links: seq<Link>)
    requires n <= |pages|
  {
    && |links| == |Canonicals(pages[..n])| && Canonicals(pages[..n]) <= Canonicals(pages)
    && Resolves(policy, Canonicals(pages), links)
  }

  lemma OneMorePage(pages: seq<CanonicalPage>, policy: Policy, n: nat, links: seq<Link>, more: seq<Link>)
    requires n < |pages| && ReadUpTo(pages, policy, n, links)
    requires HasCanonical(pages[n]) ==> Resolve(policy, DeclaredBy(pages[n])).Some?
    requires more == if HasCanonical(pages[n]) then links + [Resolve(policy, DeclaredBy(pages[n])).value] else links
    ensures ReadUpTo(pages, policy, n + 1, more)
  {
    CanonicalsOneMore(pages, n);
  }

  lemma {:induction false} UnreadablePage(pages: seq<CanonicalPage>, policy: Policy, n: nat, links: seq<Link>)
    requires n < |pages| && ReadUpTo(pages, policy, n, links)
    requires HasCanonical(pages[n]) && Resolve(policy, DeclaredBy(pages[n])).None?
    ensures |links| < |Canonicals(pages)| && Resolve(policy, Canonicals(pages)[|links|]).None?
  {
    CanonicalsOneMore(pages, n);
  }

  // ----------------------------------------- the graph, told by the pages

  /** The declared canonicals are those of the pages that have one, in order. */
  ghost predicate AreCanonicalsOf(pages: seq<CanonicalPage>, declared: seq<Declared>, from: seq<nat>) {
    && |from| == |declared|
    && (forall i, j :: 0 <= i < j < |from| ==> from[i] < from[j])
    && (forall k: nat :: k in from <==> k < |pages| && pages[k].canonical !in {None, Some("")})
    && (forall i :: 0 <= i < |from| ==>
          && from[i] < |pages| && declared[i].source == pages[from[i]].url
          && Some(declared[i].target) == pages[from[i]].canonical && declared[i].evidence == pages[from[i]].evidence)
  }

  lemma {:induction false} CanonicalsAre(pages: seq<CanonicalPage>) returns (from: seq<nat>)
    ensures AreCanonicalsOf(pages, Canonicals(pages), from)
  {
    from := [];
    if pages != [] {
      var n := |pages| - 1;
      var earlier := CanonicalsAre(pages[..n]);
      if HasCanonical(pages[n]) {
        from := earlier + [n];
        CanonicalAdded(pages, Canonicals(pages[..n]), earlier);
      } else {
        from := earlier;
        NoCanonicalAdded(pages, Canonicals(pages[..n]), earlier);
        assert Canonicals(pages) == Canonicals(pages[..n]);
      }
    }
  }

  lemma CanonicalAdded(pages: seq<CanonicalPage>, declared: seq<Declared>, from: seq<nat>)
    requires pages != [] && HasCanonical(pages[|pages| - 1])
    requires AreCanonicalsOf(pages[..|pages| - 1], declared, from)
    ensures AreCanonicalsOf(pages, declared + [DeclaredBy(pages[|pages| - 1])], from + [|pages| - 1])
  {
    var n := |pages| - 1;
    assert forall i :: 0 <= i < n ==> pages[..n][i] == pages[i];
    assert forall k: nat :: k in from + [n] <==> k in from || k == n;
    assert forall i :: 0 <= i < |from| ==> from[i] in from;
  }

  lemma NoCanonicalAdded(pages: seq<CanonicalPage>, declared: seq<Declared>, from: seq<nat>)
    requires pages != [] && !HasCanonical(pages[|pages| - 1])
    requires AreCanonicalsOf(pages[..|pages| - 1], declared, from)
    ensures AreCanonicalsOf(pages, declared, from)
  {
    assert forall i :: 0 <= i < |pages| - 1 ==> pages[..|pages| - 1][i] == pages[i];
  }

  /** A canonical that points a page at itself. */
  function SelfLink(policy: Policy): Declared -> bool {
    (declared: Declared) => policy.normalize(declared.source) == policy.normalize(declared.target)
  }

  /** The edge of the source, if it has one, is made by link `at`, the last one that
      leads elsewhere; there is none if `at` is the number of links. */
  ghost predicate IsLastOther(edges: Edges, links: seq<Link>, source: string, at: nat) {
    && at <= |links| && (source in edges <==> at < |links|)
    && (at < |links| ==>
          && links[at].source == source && links[at].target != source
          && edges[source] == Edge(links[at].target, links[at].evidence))
    && (forall k :: 0 <= k < |links| && (at == |links| || at < k) ==>
          links[k].source != source || links[k].target == source)
  }

  lemma SelfLinkAdded(edges: Edges, links: seq<Link>, link: Link, source: string, at: nat)
    requires IsLastOther(edges, links, source, at) && (link.source != source || link.target == source)
    ensures IsLastOther(edges, links + [link], source, if at == |links| then at + 1 else at)
  {
  }

  lemma OtherLinkAdded(edges: Edges, links: seq<Link>, link: Link, source: string, at: nat)
    requires IsLastOther(edges, links, source, at) && link.source != link.target
    ensures IsLastOther(edges[link.source := Edge(link.target, link.evidence)], links + [link], source,
      if link.source == source then |links| else if at == |links| then at + 1 else at)
  {
  }

  lemma {:induction false} EdgeIsTheLastOther(links: seq<Link>, source: string) returns (at: nat)
    ensures IsLastOther(Declare(Elsewhere(links)), links, source, at)
  {
    if links == [] {
      at := 0;
    } else {
      var n := |links| - 1;
      var link := links[n];
      var earlier := EdgeIsTheLastOther(links[..n], source);
      FrontAndLast(links);
      ElsewhereOneMore(links[..n], link);
      if link.source == link.target {
        SelfLinkAdded(Declare(Elsewhere(links[..n])), links[..n], link, source, earlier);
        at := if earlier == n then n + 1 else earlier;
      } else {
        DeclareOneMore(Elsewhere(links[..n]), link);
        OtherLinkAdded(Declare(Elsewhere(links[..n])), links[..n], link, source, earlier);
        at := if link.source == source then n else if earlier == n then n + 1 else earlier;
      }
    }
  }

  lemma {:induction false} DeclareOneMore(links: seq<Link>, link: Link)
    ensures Declare(links + [link]) == Declare(links)[link.source := Edge(link.target, link.evidence)]
  {
    assert (links + [link])[..|links|] == links;
  }

  lemma {:induction false} CanonicalGraph(policy: Policy, declared: seq<Declared>, links: seq<Link>)
    requires Resolves(policy, declared, links) && |links| == |declared|
    ensures IsGraphOf(policy, declared, SelfLink(policy), Declare(Elsewhere(links)))
  {
    var edges := Declare(Elsewhere(links));
    forall i | 0 <= i < |links|
      ensures Ends(policy, declared[i], links[i].source, links[i].target) && declared[i].evidence == links[i].evidence
      ensures SelfLink(policy)(declared[i]) <==> links[i].source == links[i].target
    {
      assert Resolve(policy, declared[i]) == Some(links[i]);
    }
    forall source | source in edges
      ensures exists i: nat :: Makes(policy, declared, SelfLink(policy), i, source, edges[source])
    {
      var at := EdgeIsTheLastOther(links, source);
      assert Makes(policy, declared, SelfLink(policy), at, source, edges[source]);
    }
    forall i | 0 <= i < |declared| && !SelfLink(policy)(declared[i])
      ensures policy.normalize(declared[i].source).Some? && policy.normalize(declared[i].source).value in edges
    {
      var at := EdgeIsTheLastOther(links, links[i].source);
    }
  }

  /** Reading stopped at a canonical with an end that has no normal form. */
  ghost predicate StopsUnread(policy: Policy, declared: seq<Declared>, n: nat) {
    && n < |declared|
    && (policy.normalize(declared[n].source) == None || policy.normalize(declared[n].target) == None)
    && forall i :: 0 <= i < n ==>
         policy.normalize(declared[i].source).Some? && policy.normalize(declared[i].target).Some?
  }

  lemma {:induction false} CanonicalsStopUnread(policy: Policy, declared: seq<Declared>, links: seq<Link>)
    requires Resolves(policy, declared, links) && |links| < |declared| && Resolve(policy, declared[|links|]).None?
    ensures StopsUnread(policy, declared, |links|)
  {
    forall i | 0 <= i < |links|
      ensures policy.normalize(declared[i].source).Some? && policy.normalize(declared[i].target).Some?
    {
      assert Resolve(policy, declared[i]) == Some(links[i]);
    }
  }

  /** Reads the canonicals into the edge map; a later page may override an
      earlier one of the same URL, and nothing counts as a conflict. */
  method BuildCanonicals(pages: seq<CanonicalPage>, policy: Policy)
    returns (built: Result<(Edges, seq<Issue>), GraphError>)
    ensures var links := ReadLinks(policy, Canonicals(pages), false);
      match built
      case Ok(value) =>
        && |links| == |Canonicals(pages)|
        && value == (Declare(Elsewhere(links)), Unsafe(policy, CanonicalTargetUnsafe, links))
      case Err(error) => error == InvalidUrl && |links| < |Canonicals(pages)|
    ensures built.Ok? ==>
      && IsGraphOf(policy, Canonicals(pages), SelfLink(policy), built.value.0)
      && UnsafeAreTold(policy, CanonicalTargetUnsafe, Canonicals(pages), built.value.1)
    ensures built.Err? ==> StopsUnread(policy, Canonicals(pages), |ReadLinks(policy, Canonicals(pages), false)|)
    ensures exists from :: AreCanonicalsOf(pages, Canonicals(pages), from)
  {
    ghost var from := CanonicalsAre(pages);
    var edges: Edges := map[];
    var issues: seq<Issue> := [];
    ghost var links := [];
    for n := 0 to |pages|
      invariant ReadUpTo(pages, policy, n, links)
      invariant edges == Declare(Elsewhere(links)) && issues == Unsafe(policy, CanonicalTargetUnsafe, links)
    {
      var read;
      ghost var more;
      read, edges, issues, more := ReadPage(pages[n], policy, edges, issues, links);
      if !read {
        UnreadablePage(pages, policy, n, links);
        ReadLinksAre(policy, Canonicals(pages), false, links);
        CanonicalsStopUnread(policy, Canonicals(pages), links);
        return Err(InvalidUrl);
      }
      OneMorePage(pages, policy, n, links, more);
      links := more;
    }
    assert pages[..|pages|] == pages;
    ReadLinksAre(policy, Canonicals(pages), false, links);
    CanonicalGraph(policy, Canonicals(pages), links);
    ghost var at := UnsafeIsTold(policy, CanonicalTargetUnsafe, Canonicals(pages), links);
    return Ok((edges, issues));
  }

  lemma {:induction false} CanonicalsGrow(pages: seq<CanonicalPage>, m: nat, n: nat)
    requires m <= n <= |pages|
    ensures Canonicals(pages[..m]) <= Canonicals(pages[..n])
    decreases n
  {
    if m < n {
      assert pages[..n][..n - 1] == pages[..n - 1];
      CanonicalsGrow(pages, m, n - 1);
    }
  }

  lemma {:induction false} CanonicalsOneMore(pages: seq<CanonicalPage>, n: nat)
    requires n < |pages|
    ensures Canonicals(pages[..n + 1]) <= Canonicals(pages)
    ensures Canonicals(pages[..n + 1]) ==
      Canonicals(pages[..n]) + (if HasCanonical(pages[n]) then [DeclaredBy(pages[n])] else [])
  {
    CanonicalsGrow(pages, n + 1, |pages|);
    assert pages[..|pages|] == pages && pages[..n + 1][..n] == pages[..n];
  }

  /** The whole validator: unsafe targets in order, then cycles; or an error at the
      first canonical that is no URL. */
  method ValidateCanonicalGraph(pages: seq<CanonicalPage>, policy: Policy)
    returns (issues: Result<seq<Issue>, GraphError>)
    ensures var links := ReadLinks(policy, Canonicals(pages), false);
      match issues
      case Ok(value) =>
        && |links| == |Canonicals(pages)|
        && value == Unsafe(policy, CanonicalTargetUnsafe, links)
             + Report(Declare(Elsewhere(links)), CanonicalLoop, None)
      case Err(error) => error == InvalidUrl && |links| < |Canonicals(pages)|
    ensures var links := ReadLinks(policy, Canonicals(pages), false);
      if issues.Err? then StopsUnread(policy, Canonicals(pages), |links|)
      else
        && IsGraphOf(policy, Canonicals(pages), SelfLink(policy), Declare(Elsewhere(links)))
        && UnsafeAreTold(policy, CanonicalTargetUnsafe, Canonicals(pages), Unsafe(policy, CanonicalTargetUnsafe, links))
    ensures exists from :: AreCanonicalsOf(pages, Canonicals(pages), from)
  {
    var built := BuildCanonicals(pages, policy);
    if built.Err? {
      return Err(built.error);
    }
    var walks := EmitCanonicalIssues(built.value.0);
    return Ok(built.value.1 + walks);
  }

  method EmitCanonicalIssues(edges: Edges) returns (issues: seq<Issue>)
    ensures issues == Report(edges, CanonicalLoop, None)
  {
    var order := Sorted(edges.Keys);
    var emitted: set<set<string>> := {};
    issues := [];
    for k := 0 to |order|
      invariant emitted == LoopKeys(edges, order, k)
      invariant issues == Issues(edges, order, Reported(edges, order, k, None), CanonicalLoop)
    {
      ReportOneMore(edges, order, k, CanonicalLoop, None);
      var issue;
      emitted, issue := EmitCanonicalIssue(edges, order, k, emitted);
      issues := issues + issue;
    }
  }

  method EmitCanonicalIssue(edges: Edges, order: seq<string>, k: nat, emitted: set<set<string>>)
    returns (loops: set<set<string>>, issue: seq<Issue>)
    requires k < |order| && emitted == LoopKeys(edges, order, k)
    ensures loops == LoopKeys(edges, order, k + 1)
    ensures issue == if Reports(edges, order, k, None) then [IssueFrom(edges, order[k], CanonicalLoop)] else []
  {
    loops, issue := emitted, [];
    var path, evidence, looped := WalkOf(order[k], edges);
    if looped {
      LoopIsNewIffReported(edges, order, k, None);
      var loopKey := LoopKey(path);
      if loopKey !in emitted {
        loops := emitted + {loopKey};
        issue := [Issue(CanonicalLoop, path, Dedup(evidence))];
      }
    }
  }
}
