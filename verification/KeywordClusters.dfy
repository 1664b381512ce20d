/** First-fit keyword clustering (exporters/run_data.py:941-945, 1155-1206): each
    keyword joins the first cluster it overlaps enough, or seeds a new one, and
    is marked in place with its cluster's id. */
module KeywordClusters {
  import opened Outcomes
  import opened Sequences
  import opened Decimals
  import opened Overlap

  type Tokens = set<string>

  datatype Keyword = Keyword(phrase: string, volume: Option<int>, cluster: Option<string>)

  /** Jaccard overlap of at least 0.34, in whole numbers. */
  predicate Overlaps(a: Tokens, b: Tokens) {
    a != {} && b != {} && 50 * |a * b| >= 17 * |a + b|
  }

  lemma OverlapsIffJaccard(a: Tokens, b: Tokens)
    ensures Overlaps(a, b) <==> Jaccard(a, b) >= 34.0 / 100.0
  {
    if a != {} && b != {} { ReachesIff(a, b, 34, 100); }
  }

  /** The text layer: a phrase's tokens, and its normalised form. */
  datatype Lexer = Lexer(tokens: string -> Tokens, normalize: string -> string)

  function TokensOf(lexer: Lexer, phrase: string): (tokens: Tokens)
    ensures tokens != {} && (lexer.tokens(phrase) != {} ==> tokens == lexer.tokens(phrase))
    ensures lexer.tokens(phrase) == {} ==> tokens == {lexer.normalize(phrase)}
  {
    if lexer.tokens(phrase) == {} then {lexer.normalize(phrase)} else lexer.tokens(phrase)
  }

  // ------------------------------------------------------------ the grouping

  /** Which cluster each keyword is in, and how many clusters there are. */
  datatype Grouping = Grouping(home: seq<nat>, count: nat)

  /** All tokens of the keywords in cluster `i`. */
  ghost function Pool(tokens: seq<Tokens>, home: seq<nat>, i: nat): Tokens
    requires |home| == |tokens|
  {
    if tokens == [] then {}
    else
      var n := |tokens| - 1;
      Pool(tokens[..n], home[..n], i) + (if home[n] == i then tokens[n] else {})
  }

  ghost function Pools(tokens: seq<Tokens>, g: Grouping): (pools: seq<Tokens>)
    requires |g.home| == |tokens|
    ensures |pools| == g.count && forall i :: 0 <= i < g.count ==> pools[i] == Pool(tokens, g.home, i)
  {
    seq(g.count, i requires 0 <= i < g.count => Pool(tokens, g.home, i))
  }

  /** The first pool from `i` on that overlaps; the number of pools if there is
      none. */
  function FirstFit(pools: seq<Tokens>, extra: Tokens, i: nat): (fit: nat)
    requires i <= |pools|
    ensures i <= fit <= |pools|
    decreases |pools| - i
  {
    if i == |pools| || Overlaps(extra, pools[i]) then i else FirstFit(pools, extra, i + 1)
  }

  lemma {:induction false} FirstFitIsFirst(pools: seq<Tokens>, extra: Tokens, i: nat)
    requires i <= |pools|
    ensures var fit := FirstFit(pools, extra, i);
      && (forall j :: i <= j < fit ==> !Overlaps(extra, pools[j]))
      && (fit < |pools| ==> Overlaps(extra, pools[fit]))
    decreases |pools| - i
  {
    if i < |pools| && !Overlaps(extra, pools[i]) { FirstFitIsFirst(pools, extra, i + 1); }
  }

  /** The grouping after all keywords have been placed in order. */
  ghost function Group(tokens: seq<Tokens>): (g: Grouping)
    ensures |g.home| == |tokens| && forall k :: 0 <= k < |tokens| ==> g.home[k] < g.count
    ensures g.count <= |tokens|
  {
    if tokens == [] then Grouping([], 0)
    else
      var n := |tokens| - 1;
      var g := Group(tokens[..n]);
      var fit := FirstFit(Pools(tokens[..n], g), tokens[n], 0);
      Grouping(g.home + [fit], if fit == g.count then fit + 1 else g.count)
  }

  /** Placing goes on where it stopped: earlier placements never change. */
  lemma {:induction false} GroupOfPrefix(tokens: seq<Tokens>, k: nat)
    requires k <= |tokens|
    ensures Group(tokens[..k]).home == Group(tokens).home[..k] && Group(tokens[..k]).count <= Group(tokens).count
  {
    if k < |tokens| {
      var n := |tokens| - 1;
      GroupOfPrefix(tokens[..n], k);
      assert tokens[..n][..k] == tokens[..k];
      assert Group(tokens).home[..n] == Group(tokens[..n]).home;
      assert Group(tokens).home[..k] == Group(tokens).home[..n][..k];
    } else {
      assert tokens[..k] == tokens;
    }
  }

  lemma {:induction false} GroupOneMore(front: seq<Tokens>, last: Tokens)
    ensures var g := Group(front); var fit := FirstFit(Pools(front, g), last, 0);
      Group(front + [last]) == Grouping(g.home + [fit], if fit == g.count then fit + 1 else g.count)
  {
    assert (front + [last])[..|front|] == front;
  }

  lemma {:induction false} HomeStays(tokens: seq<Tokens>, front: seq<Tokens>, last: Tokens)
    requires front + [last] <= tokens
    ensures Group(tokens).home[|front|] == Group(front + [last]).home[|front|]
  {
    GroupOfPrefix(tokens, |front| + 1);
    assert tokens[..|front| + 1] == front + [last];
  }

  lemma {:induction false} PlacedAt(tokens: seq<Tokens>, front: seq<Tokens>, last: Tokens)
    requires front + [last] <= tokens
    ensures Group(tokens).home[|front|] == FirstFit(Pools(front, Group(front)), last, 0)
  {
    HomeStays(tokens, front, last);
    GroupOneMore(front, last);
  }

  /** When a keyword was placed, after those in `front`, it failed the overlap
      with every earlier cluster as it then was, and met it with its own, unless
      it seeded that cluster. */
  lemma {:induction false} PlacedFirstFit(tokens: seq<Tokens>, front: seq<Tokens>, last: Tokens)
    requires front + [last] <= tokens
    ensures var pools, home := Pools(front, Group(front)), Group(tokens).home[|front|];
      && home <= |pools|
      && (forall j :: 0 <= j < home ==> !Overlaps(last, pools[j]))
      && (home < |pools| ==> Overlaps(last, pools[home]))
      && (home == |pools| ==> Pool(front, Group(front).home, home) == {})
  {
    PlacedAt(tokens, front, last);
    FirstFitIsFirst(Pools(front, Group(front)), last, 0);
    PoolOfNobody(front, Group(front).home, Group(front).count);
  }

  lemma {:induction false} PoolOfNobody(tokens: seq<Tokens>, home: seq<nat>, i: nat)
    requires |home| == |tokens| && forall k :: 0 <= k < |home| ==> home[k] != i
    ensures Pool(tokens, home, i) == {}
  {
    if tokens != [] { PoolOfNobody(tokens[..|tokens| - 1], home[..|tokens| - 1], i); }
  }

  /** The pool is the union of the members' tokens and nothing else. */
  lemma {:induction false} PoolIsTheUnion(tokens: seq<Tokens>, home: seq<nat>, i: nat, token: string)
    requires |home| == |tokens|
    ensures token in Pool(tokens, home, i) <==> exists k :: 0 <= k < |tokens| && home[k] == i && token in tokens[k]
  {
    if tokens != [] {
      var n := |tokens| - 1;
      PoolIsTheUnion(tokens[..n], home[..n], i, token);
      assert forall k :: 0 <= k < n ==> tokens[..n][k] == tokens[k] && home[..n][k] == home[k];
    }
  }

  /** One keyword more opens at most one cluster, and then is in it. */
  lemma {:induction false} LastCluster(front: seq<Tokens>, last: Tokens)
    ensures var g, h := Group(front), Group(front + [last]);
      h.home[..|front|] == g.home && (h.count == g.count || h.home[|front|] == g.count == h.count - 1)
  {
    GroupOneMore(front, last);
  }

  /** No cluster is empty. */
  lemma {:induction false} NoClusterIsEmpty(tokens: seq<Tokens>, i: nat) returns (k: nat)
    requires i < Group(tokens).count
    ensures k < |tokens| && Group(tokens).home[k] == i
  {
    var front, last := tokens[..|tokens| - 1], tokens[|tokens| - 1];
    assert front + [last] == tokens;
    LastCluster(front, last);
    if i < Group(front).count {
      k := NoClusterIsEmpty(front, i);
      assert Group(tokens).home[..|front|][k] == i;
    } else {
      k := |front|;
    }
  }

  // ------------------------------------------------------------ conservation

  function Sum(weights: seq<int>): int {
    if weights == [] then 0 else Sum(weights[..|weights| - 1]) + weights[|weights| - 1]
  }

  /** What cluster `i` holds of the weights. */
  function Share(weights: seq<int>, home: seq<nat>, i: nat): int
    requires |home| == |weights|
  {
    if weights == [] then 0
    else
      var n := |weights| - 1;
      Share(weights[..n], home[..n], i) + (if home[n] == i then weights[n] else 0)
  }

  function Shares(weights: seq<int>, home: seq<nat>, count: nat): int
    requires |home| == |weights|
  {
    if count == 0 then 0 else Shares(weights, home, count - 1) + Share(weights, home, count - 1)
  }

  lemma {:induction false} SharesOneMore(weights: seq<int>, home: seq<nat>, count: nat)
    requires |home| == |weights| && weights != []
    ensures var n := |weights| - 1;
      Shares(weights, home, count) ==
        Shares(weights[..n], home[..n], count) + (if home[n] < count then weights[n] else 0)
  {
    if count > 0 { SharesOneMore(weights, home, count - 1); }
  }

  /** Whatever is weighed, the clusters together hold all of it, once. */
  lemma {:induction false} NothingIsLost(weights: seq<int>, home: seq<nat>, count: nat)
    requires |home| == |weights| && forall k :: 0 <= k < |home| ==> home[k] < count
    ensures Shares(weights, home, count) == Sum(weights)
  {
    if weights == [] {
      NoWeightsNoShares(count);
    } else {
      NothingIsLost(weights[..|weights| - 1], home[..|weights| - 1], count);
      SharesOneMore(weights, home, count);
    }
  }

  lemma {:induction false} NoWeightsNoShares(count: nat)
    ensures Shares([], [], count) == 0
  {
    if count > 0 { NoWeightsNoShares(count - 1); }
  }

  // --------------------------------------------------------------- in place

  /** A cluster under construction: its tokens and its members' positions. */
  datatype Seed = Seed(tokens: Tokens, members: seq<nat>)

  /** The positions placed in cluster `i`, in order. */
  ghost function Members(home: seq<nat>, i: nat): seq<nat> {
    if home == [] then []
    else
      var n := |home| - 1;
      Members(home[..n], i) + (if home[n] == i then [n] else [])
  }

  lemma {:induction false} MembersAre(home: seq<nat>, i: nat)
    ensures forall k: nat :: k in Members(home, i) <==> k < |home| && home[k] == i
    ensures forall a :: 0 <= a < |Members(home, i)| ==> Members(home, i)[a] < |home|
    ensures forall a, b :: 0 <= a < b < |Members(home, i)| ==> Members(home, i)[a] < Members(home, i)[b]
  {
    if home != [] {
      var n := |home| - 1;
      MembersAre(home[..n], i);
      assert forall k :: 0 <= k < n ==> home[..n][k] == home[k];
    }
  }

  ghost predicate Describes(seeds: seq<Seed>, tokens: seq<Tokens>, g: Grouping)
    requires |g.home| == |tokens|
  {
    && |seeds| == g.count
    && forall i :: 0 <= i < |seeds| ==> seeds[i] == Seed(Pool(tokens, g.home, i), Members(g.home, i))
  }

  lemma {:induction false} PoolOneMore(tokens: seq<Tokens>, home: seq<nat>, extra: Tokens, at: nat, i: nat)
    requires |home| == |tokens|
    ensures Pool(tokens + [extra], home + [at], i) == Pool(tokens, home, i) + (if at == i then extra else {})
    ensures Members(home + [at], i) == Members(home, i) + (if at == i then [|home|] else [])
  {
    assert (tokens + [extra])[..|tokens|] == tokens && (home + [at])[..|home|] == home;
  }

  lemma {:induction false} NobodyIsAMember(home: seq<nat>, i: nat)
    requires forall k :: 0 <= k < |home| ==> home[k] != i
    ensures Members(home, i) == []
  {
    if home != [] { NobodyIsAMember(home[..|home| - 1], i); }
  }

  /** The seeds after a keyword joined the cluster at `fit`, or seeded a new one
      at the end. */
  function Joined(seeds: seq<Seed>, fit: nat, extra: Tokens, at: nat): (after: seq<Seed>)
    requires fit <= |seeds|
  {
    if fit < |seeds| then seeds[fit := Seed(seeds[fit].tokens + extra, seeds[fit].members + [at])]
    else seeds + [Seed(extra, [at])]
  }

  lemma PlacementDescribes(seeds: seq<Seed>, tokens: seq<Tokens>, g: Grouping, extra: Tokens, fit: nat)
    requires |g.home| == |tokens| && Describes(seeds, tokens, g) && fit <= g.count
    requires forall k :: 0 <= k < |g.home| ==> g.home[k] < g.count
    ensures Describes(Joined(seeds, fit, extra, |tokens|), tokens + [extra],
                      Grouping(g.home + [fit], if fit == g.count then fit + 1 else g.count))
  {
    var after := Joined(seeds, fit, extra, |tokens|);
    forall i | 0 <= i < |after|
      ensures after[i] == Seed(Pool(tokens + [extra], g.home + [fit], i), Members(g.home + [fit], i))
    {
      PoolOneMore(tokens, g.home, extra, fit, i);
      if i == g.count {
        PoolOfNobody(tokens, g.home, i);
        NobodyIsAMember(g.home, i);
      }
    }
  }

  /** The seeds are tried in order. */
  method FindFit(seeds: seq<Seed>, ghost pools: seq<Tokens>, extra: Tokens) returns (i: nat)
    requires |pools| == |seeds| && forall j :: 0 <= j < |seeds| ==> seeds[j].tokens == pools[j]
    ensures i == FirstFit(pools, extra, 0)
  {
    i := 0;
    while i < |seeds| && !Overlaps(extra, seeds[i].tokens)
      invariant 0 <= i <= |seeds|
      invariant FirstFit(pools, extra, 0) == FirstFit(pools, extra, i)
    {
      i := i + 1;
    }
  }

  /** One keyword placed. */
  method Place(seeds: seq<Seed>, ghost tokens: seq<Tokens>, extra: Tokens, at: nat) returns (after: seq<Seed>)
    requires |tokens| == at && Describes(seeds, tokens, Group(tokens))
    ensures Describes(after, tokens + [extra], Group(tokens + [extra]))
  {
    var i := FindFit(seeds, Pools(tokens, Group(tokens)), extra);
    after := Joined(seeds, i, extra, at);
    PlacementDescribes(seeds, tokens, Group(tokens), extra, i);
    GroupOneMore(tokens, extra);
  }

  function CellTokens(lexer: Lexer, rows: seq<Keyword>): (tokens: seq<Tokens>)
    ensures |tokens| == |rows| && forall k :: 0 <= k < |rows| ==> tokens[k] == TokensOf(lexer, rows[k].phrase)
  {
    seq(|rows|, k requires 0 <= k < |rows| => TokensOf(lexer, rows[k].phrase))
  }

  /** The grouping of a list of keywords. */
  ghost function Homes(lexer: Lexer, rows: seq<Keyword>): (g: Grouping)
    ensures |g.home| == |rows| && forall k :: 0 <= k < |rows| ==> g.home[k] < g.count
  {
    Group(CellTokens(lexer, rows))
  }

  method PlaceAll(lexer: Lexer, rows: array<Keyword>) returns (seeds: seq<Seed>)
    ensures Describes(seeds, CellTokens(lexer, rows[..]), Homes(lexer, rows[..]))
  {
    seeds := [];
    ghost var tokens := CellTokens(lexer, rows[..]);
    for k := 0 to rows.Length
      invariant Describes(seeds, tokens[..k], Group(tokens[..k]))
    {
      seeds := Place(seeds, tokens[..k], TokensOf(lexer, rows[k].phrase), k);
      assert tokens[..k + 1] == tokens[..k] + [TokensOf(lexer, rows[k].phrase)];
    }
    assert tokens[..rows.Length] == tokens;
  }

  // ------------------------------------------------------------------ reports

  datatype Cluster = Cluster(id: string, name: string, count: nat, volume: Option<int>)

  /** The one-based number, in at least two digits. */
  function ClusterId(index: nat): string {
    "CL-" + (if index + 1 < 10 then "0" else "") + Decimal(index + 1)
  }

  lemma IdsDiffer(i: nat, j: nat)
    requires ClusterId(i) == ClusterId(j)
    ensures i == j
  {
    ValueOfId(i);
    ValueOfId(j);
  }

  lemma ValueOfId(i: nat)
    ensures AllDigits(ClusterId(i)[3..]) && Value(ClusterId(i)[3..]) == i + 1
  {
    ValueOfDecimal(i + 1);
    if i + 1 < 10 {
      assert ClusterId(i)[3..] == "0" + Decimal(i + 1);
      assert ("0" + Decimal(i + 1))[..1] == "0" && "0"[..0] == "";
    } else {
      assert ClusterId(i)[3..] == Decimal(i + 1);
    }
  }

  /** "CL-" and the one-based number, with a zero before a single digit. */
  lemma {:induction false} ClusterIdTells(i: nat)
    ensures ClusterId(i)[..3] == "CL-" && AllDigits(ClusterId(i)[3..]) && Value(ClusterId(i)[3..]) == i + 1
    ensures i < 9 ==> |ClusterId(i)| == 5 && ClusterId(i)[3] == '0'
    ensures i >= 9 ==> ClusterId(i) == "CL-" + Decimal(i + 1)
  {
    ValueOfId(i);
    assert i >= 9 ==> "CL-" + "" == "CL-";
  }

  function Truncated(s: string, n: nat): string {
    if |s| <= n then s else s[..n]
  }

  /** The volumes the members have, in order. */
  function VolumesOf(rows: seq<Keyword>, members: seq<nat>): seq<int>
    requires forall a :: 0 <= a < |members| ==> members[a] < |rows|
  {
    if members == [] then []
    else
      var n := |members| - 1;
      var volume := rows[members[n]].volume;
      VolumesOf(rows, members[..n]) + (if volume.Some? then [volume.value] else [])
  }

  function Report(rows: seq<Keyword>, members: seq<nat>, index: nat): Cluster
    requires members != [] && forall a :: 0 <= a < |members| ==> members[a] < |rows|
  {
    var volumes := VolumesOf(rows, members);
    Cluster(ClusterId(index), Truncated(rows[members[0]].phrase, 120), |members|,
            if volumes == [] then None else Some(Sum(volumes)))
  }

  /** A row, marked if its cluster is among the first `count`. */
  function Marked(row: Keyword, home: nat, count: nat): Keyword {
    if home < count then row.(cluster := Some(ClusterId(home))) else row
  }

  ghost predicate MarkedUpTo(now: seq<Keyword>, was: seq<Keyword>, home: seq<nat>, count: nat) {
    |now| == |was| == |home| && forall k :: 0 <= k < |now| ==> now[k] == Marked(was[k], home[k], count)
  }

  /** Marking changes neither phrase nor volume. */
  lemma {:induction false} MarkingKeepsVolumes(
    now: seq<Keyword>, was: seq<Keyword>, home: seq<nat>, count: nat, members: seq<nat>)
    requires MarkedUpTo(now, was, home, count) && forall a :: 0 <= a < |members| ==> members[a] < |was|
    ensures VolumesOf(now, members) == VolumesOf(was, members)
  {
    if members != [] { MarkingKeepsVolumes(now, was, home, count, members[..|members| - 1]); }
  }

  method GatherVolumes(rows: array<Keyword>, members: seq<nat>) returns (volumes: seq<int>)
    requires forall a :: 0 <= a < |members| ==> members[a] < rows.Length
    ensures volumes == VolumesOf(rows[..], members)
  {
    volumes := [];
    for a := 0 to |members|
      invariant volumes == VolumesOf(rows[..], members[..a])
    {
      assert members[..a + 1][..a] == members[..a];
      var volume := rows[members[a]].volume;
      if volume.Some? { volumes := volumes + [volume.value]; }
    }
    assert members[..|members|] == members;
  }

  method Total(values: seq<int>) returns (sum: int)
    ensures sum == Sum(values)
  {
    sum := 0;
    for a := 0 to |values|
      invariant sum == Sum(values[..a])
    {
      assert values[..a + 1][..a] == values[..a];
      sum := sum + values[a];
    }
    assert values[..|values|] == values;
  }

  /** Marks the members of one cluster. */
  method MarkMembers(rows: array<Keyword>, members: seq<nat>, index: nat, ghost was: seq<Keyword>, ghost home: seq<nat>)
    requires MarkedUpTo(rows[..], was, home, index) && members == Members(home, index)
    modifies rows
    ensures MarkedUpTo(rows[..], was, home, index + 1)
  {
    MembersAre(home, index);
    for a := 0 to |members|
      invariant forall k: nat :: k < rows.Length ==>
        rows[k] == Marked(was[k], home[k], if k in members[..a] then index + 1 else index)
    {
      var at := members[a];
      assert home[at] == index;
      rows[at] := rows[at].(cluster := Some(ClusterId(index)));
      assert forall k: nat :: k in members[..a + 1] <==> k in members[..a] || k == at;
    }
    assert members[..|members|] == members;
  }

  lemma {:induction false} ClusterHasMembers(tokens: seq<Tokens>, i: nat)
    requires i < Group(tokens).count
    ensures Members(Group(tokens).home, i) != []
  {
    var k := NoClusterIsEmpty(tokens, i);
    MembersAre(Group(tokens).home, i);
  }

  /** The report of cluster `i`. */
  ghost predicate ReportIs(cluster: Cluster, rows: seq<Keyword>, home: seq<nat>, i: nat)
    requires |home| == |rows|
  {
    MembersAre(home, i);
    Members(home, i) != [] && cluster == Report(rows, Members(home, i), i)
  }

  ghost predicate ReportsUpTo(clusters: seq<Cluster>, rows: seq<Keyword>, home: seq<nat>, count: nat)
    requires |home| == |rows|
  {
    |clusters| == count && forall i :: 0 <= i < count ==> ReportIs(clusters[i], rows, home, i)
  }

  /** Reports one cluster and marks its members. */
  method ReportCluster(rows: array<Keyword>, seed: Seed, index: nat, ghost was: seq<Keyword>, ghost home: seq<nat>)
    returns (cluster: Cluster)
    requires MarkedUpTo(rows[..], was, home, index) && seed.members == Members(home, index) != []
    modifies rows
    ensures |home| == |was| && ReportIs(cluster, was, home, index) && MarkedUpTo(rows[..], was, home, index + 1)
  {
    MembersAre(home, index);
    var volumes := GatherVolumes(rows, seed.members);
    MarkingKeepsVolumes(rows[..], was, home, index, seed.members);
    var sum := Total(volumes);
    var name := Truncated(rows[seed.members[0]].phrase, 120);
    cluster := Cluster(ClusterId(index), name, |seed.members|, if volumes == [] then None else Some(sum));
    MarkMembers(rows, seed.members, index, was, home);
  }

  lemma ReportsOneMore(clusters: seq<Cluster>, rows: seq<Keyword>, home: seq<nat>, count: nat, cluster: Cluster)
    requires |home| == |rows| && ReportsUpTo(clusters, rows, home, count) && ReportIs(cluster, rows, home, count)
    ensures ReportsUpTo(clusters + [cluster], rows, home, count + 1)
  {
    var more := clusters + [cluster];
    forall i | 0 <= i < count + 1
      ensures ReportIs(more[i], rows, home, i)
    {
      assert more[i] == if i < count then clusters[i] else cluster;
    }
  }

  method ReportAll(rows: array<Keyword>, seeds: seq<Seed>, ghost home: seq<nat>) returns (clusters: seq<Cluster>)
    requires |home| == rows.Length
    requires forall i :: 0 <= i < |seeds| ==> seeds[i].members == Members(home, i) != []
    modifies rows
    ensures MarkedUpTo(rows[..], old(rows[..]), home, |seeds|)
    ensures ReportsUpTo(clusters, old(rows[..]), home, |seeds|)
  {
    clusters := [];
    ghost var was := rows[..];
    for i := 0 to |seeds|
      invariant MarkedUpTo(rows[..], was, home, i)
      invariant ReportsUpTo(clusters, was, home, i)
    {
      var cluster := ReportCluster(rows, seeds[i], i, was, home);
      ReportsOneMore(clusters, was, home, i, cluster);
      clusters := clusters + [cluster];
    }
  }

  /** The whole operation: every keyword is marked with the id of the cluster it
      was placed in, nothing else about it changes, and every cluster is reported. */
  method CompileKeywordClusters(lexer: Lexer, rows: array<Keyword>) returns (clusters: seq<Cluster>)
    modifies rows
    ensures var was := old(rows[..]); var g := Homes(lexer, was);
      MarkedUpTo(rows[..], was, g.home, g.count) && ReportsUpTo(clusters, was, g.home, g.count)
  {
    var seeds := PlaceAll(lexer, rows);
    forall i | 0 <= i < |seeds|
      ensures seeds[i].members == Members(Homes(lexer, rows[..]).home, i) != []
    {
      ClusterHasMembers(CellTokens(lexer, rows[..]), i);
    }
    clusters := ReportAll(rows, seeds, Homes(lexer, rows[..]).home);
  }

  // --------------------------------------------------- what the reports add up to

  function Ones(n: nat): seq<int> {
    seq(n, i => 1)
  }

  function Volumes(rows: seq<Keyword>): (volumes: seq<int>)
    ensures |volumes| == |rows|
    ensures forall k :: 0 <= k < |rows| ==> volumes[k] == (if rows[k].volume.Some? then rows[k].volume.value else 0)
  {
    seq(|rows|, k requires 0 <= k < |rows| => if rows[k].volume.Some? then rows[k].volume.value else 0)
  }

  lemma {:induction false} VolumesOfPrefix(rows: seq<Keyword>, n: nat, members: seq<nat>)
    requires n <= |rows| && forall a :: 0 <= a < |members| ==> members[a] < n
    ensures VolumesOf(rows[..n], members) == VolumesOf(rows, members)
  {
    if members != [] { VolumesOfPrefix(rows, n, members[..|members| - 1]); }
  }

  lemma {:induction false} SumOneMore(values: seq<int>, x: int)
    ensures Sum(values + [x]) == Sum(values) + x
  {
    assert (values + [x])[..|values|] == values;
  }

  lemma {:induction false} VolumesOneMore(rows: seq<Keyword>, members: seq<nat>, at: nat)
    requires at < |rows| && forall a :: 0 <= a < |members| ==> members[a] < |rows|
    ensures Sum(VolumesOf(rows, members + [at])) == Sum(VolumesOf(rows, members)) + Volumes(rows)[at]
  {
    assert (members + [at])[..|members|] == members;
    if rows[at].volume.Some? { SumOneMore(VolumesOf(rows, members), rows[at].volume.value); }
    assert VolumesOf(rows, members) + [] == VolumesOf(rows, members);
  }

  lemma {:induction false} MembersOneMore(home: seq<nat>, at: nat, i: nat)
    ensures Members(home + [at], i) == Members(home, i) + (if at == i then [|home|] else [])
  {
    assert (home + [at])[..|home|] == home;
  }

  lemma {:induction false} ShareOneMore(weights: seq<int>, w: int, home: seq<nat>, at: nat, i: nat)
    requires |home| == |weights|
    ensures Share(weights + [w], home + [at], i) == Share(weights, home, i) + (if at == i then w else 0)
  {
    assert (weights + [w])[..|weights|] == weights && (home + [at])[..|home|] == home;
  }

  /** A keyword more leaves the volumes of the others as they are. */
  lemma {:induction false} VolumesOfMore(rows: seq<Keyword>, row: Keyword, members: seq<nat>)
    requires forall a :: 0 <= a < |members| ==> members[a] < |rows|
    ensures VolumesOf(rows + [row], members) == VolumesOf(rows, members)
    ensures Volumes(rows + [row]) == Volumes(rows) + [Volumes(rows + [row])[|rows|]]
  {
    assert (rows + [row])[..|rows|] == rows;
    VolumesOfPrefix(rows + [row], |rows|, members);
  }

  lemma {:induction false} MembersInRange(home: seq<nat>, at: nat, i: nat)
    ensures forall a :: 0 <= a < |Members(home, i)| ==> Members(home, i)[a] < |home|
    ensures forall a :: 0 <= a < |Members(home + [at], i)| ==> Members(home + [at], i)[a] < |home| + 1
  {
    MembersAre(home, i);
    MembersAre(home + [at], i);
  }

  lemma {:induction false} VolumeShareOneMore(rows: seq<Keyword>, row: Keyword, home: seq<nat>, at: nat, i: nat)
    requires |home| == |rows|
    ensures forall a :: 0 <= a < |Members(home, i)| ==> Members(home, i)[a] < |rows|
    ensures forall a :: 0 <= a < |Members(home + [at], i)| ==> Members(home + [at], i)[a] < |rows| + 1
    ensures Sum(VolumesOf(rows + [row], Members(home + [at], i)))
      == Sum(VolumesOf(rows, Members(home, i))) + (if at == i then Volumes(rows + [row])[|rows|] else 0)
  {
    MembersInRange(home, at, i);
    MembersOneMore(home, at, i);
    VolumesOfMore(rows, row, Members(home, i));
    if at == i {
      VolumesOneMore(rows + [row], Members(home, i), |rows|);
    } else {
      assert Members(home, i) + [] == Members(home, i);
    }
  }

  lemma {:induction false} VolumesShareOneMore(rows: seq<Keyword>, row: Keyword, home: seq<nat>, at: nat, i: nat)
    requires |home| == |rows|
    ensures Share(Volumes(rows + [row]), home + [at], i)
      == Share(Volumes(rows), home, i) + (if at == i then Volumes(rows + [row])[|rows|] else 0)
  {
    var w := Volumes(rows + [row])[|rows|];
    assert Volumes(rows + [row]) == Volumes(rows) + [w];
    ShareOneMore(Volumes(rows), w, home, at, i);
  }

  lemma {:induction false} VolumeStep(rows: seq<Keyword>, row: Keyword, home: seq<nat>, at: nat, i: nat,
                                      more: seq<Keyword>, longer: seq<nat>)
    requires |home| == |rows| && more == rows + [row] && longer == home + [at]
    requires forall a :: 0 <= a < |Members(home, i)| ==> Members(home, i)[a] < |rows|
    requires Sum(VolumesOf(rows, Members(home, i))) == Share(Volumes(rows), home, i)
    ensures forall a :: 0 <= a < |Members(longer, i)| ==> Members(longer, i)[a] < |more|
    ensures Sum(VolumesOf(more, Members(longer, i))) == Share(Volumes(more), longer, i)
  {
    VolumeShareOneMore(rows, row, home, at, i);
    VolumesShareOneMore(rows, row, home, at, i);
  }

  /** The volume reported for a cluster is its share of all volumes. */
  lemma {:induction false} VolumeIsTheShare(rows: seq<Keyword>, home: seq<nat>, i: nat)
    requires |home| == |rows|
    ensures forall a :: 0 <= a < |Members(home, i)| ==> Members(home, i)[a] < |rows|
    ensures Sum(VolumesOf(rows, Members(home, i))) == Share(Volumes(rows), home, i)
  {
    if rows != [] {
      var n := |rows| - 1;
      VolumeIsTheShare(rows[..n], home[..n], i);
      VolumeStep(rows[..n], rows[n], home[..n], home[n], i, rows, home);
    }
  }

  /** And its count is its share of the keywords. */
  lemma {:induction false} CountIsTheShare(home: seq<nat>, i: nat)
    ensures |Members(home, i)| == Share(Ones(|home|), home, i)
  {
    if home != [] {
      var n := |home| - 1;
      CountIsTheShare(home[..n], i);
      assert Ones(|home|)[..n] == Ones(n);
    }
  }

  function Counts(clusters: seq<Cluster>): int {
    if clusters == [] then 0 else Counts(clusters[..|clusters| - 1]) + clusters[|clusters| - 1].count
  }

  function ReportedVolume(clusters: seq<Cluster>): int {
    if clusters == [] then 0
    else
      ReportedVolume(clusters[..|clusters| - 1]) + VolumeOf(clusters[|clusters| - 1])
  }

  function VolumeOf(cluster: Cluster): int {
    if cluster.volume.Some? then cluster.volume.value else 0
  }

  lemma {:induction false} SharesAddUp(
    clusters: seq<Cluster>, ones: seq<int>, volumes: seq<int>, home: seq<nat>, count: nat)
    requires |home| == |ones| == |volumes| && |clusters| == count
    requires forall i :: 0 <= i < count ==>
      clusters[i].count == Share(ones, home, i) && VolumeOf(clusters[i]) == Share(volumes, home, i)
    ensures Counts(clusters) == Shares(ones, home, count) && ReportedVolume(clusters) == Shares(volumes, home, count)
  {
    if count > 0 { SharesAddUp(clusters[..count - 1], ones, volumes, home, count - 1); }
  }

  lemma {:induction false} ReportIsTheShare(cluster: Cluster, rows: seq<Keyword>, home: seq<nat>, i: nat)
    requires |home| == |rows| && ReportIs(cluster, rows, home, i)
    ensures cluster.count == Share(Ones(|rows|), home, i)
    ensures VolumeOf(cluster) == Share(Volumes(rows), home, i)
  {
    VolumeIsTheShare(rows, home, i);
    CountIsTheShare(home, i);
  }

  lemma {:induction false} SumOfOnes(n: nat)
    ensures Sum(Ones(n)) == n
  {
    if n > 0 {
      SumOfOnes(n - 1);
      assert Ones(n)[..n - 1] == Ones(n - 1);
    }
  }

  /** Over all clusters the keyword counts add up to the number of keywords and
      the volumes to the sum of all measured volumes. */
  lemma {:induction false} ReportsConserve(clusters: seq<Cluster>, lexer: Lexer, rows: seq<Keyword>)
    requires ReportsUpTo(clusters, rows, Homes(lexer, rows).home, Homes(lexer, rows).count)
    ensures Counts(clusters) == |rows| && ReportedVolume(clusters) == Sum(Volumes(rows))
  {
    var g := Homes(lexer, rows);
    forall i | 0 <= i < g.count
      ensures clusters[i].count == Share(Ones(|rows|), g.home, i)
      ensures VolumeOf(clusters[i]) == Share(Volumes(rows), g.home, i)
    {
      ReportIsTheShare(clusters[i], rows, g.home, i);
    }
    SharesAddUp(clusters, Ones(|rows|), Volumes(rows), g.home, g.count);
    NothingIsLost(Ones(|rows|), g.home, g.count);
    NothingIsLost(Volumes(rows), g.home, g.count);
    SumOfOnes(|rows|);
  }

  /** Every keyword is a member of exactly one cluster, and that is the one whose
      id it carries. */
  lemma {:induction false} ClustersPartition(
    clusters: seq<Cluster>, lexer: Lexer, was: seq<Keyword>, now: seq<Keyword>, k: nat, i: nat)
    requires MarkedUpTo(now, was, Homes(lexer, was).home, Homes(lexer, was).count)
    requires ReportsUpTo(clusters, was, Homes(lexer, was).home, Homes(lexer, was).count)
    requires k < |was| && i < |clusters|
    ensures Homes(lexer, was).home[k] < |clusters|
    ensures k in Members(Homes(lexer, was).home, i) <==> now[k].cluster == Some(clusters[i].id)
    ensures now[k].cluster == Some(clusters[Homes(lexer, was).home[k]].id)
  {
    var home := Homes(lexer, was).home;
    MembersAre(home, i);
    assert ReportIs(clusters[i], was, home, i) && ReportIs(clusters[home[k]], was, home, home[k]);
    if ClusterId(home[k]) == ClusterId(i) { IdsDiffer(home[k], i); }
  }

  /** The overlap holds when a keyword is placed; it need not hold afterwards,
      for the cluster goes on growing. */
  lemma ClustersDrift()
    ensures var tokens: seq<Tokens> := [{"a"}, {"a", "b"}, {"a", "b", "c", "d"}];
      Group(tokens) == Grouping([0, 0, 0], 1) && !Overlaps(tokens[0], Pool(tokens, Group(tokens).home, 0))
  {
    var a: Tokens, b: Tokens, c: Tokens := {"a"}, {"a", "b"}, {"a", "b", "c", "d"};
    assert b * a == a && b + a == b && c * b == b && c + b == c && a * c == a && a + c == c;
    assert |a| == 1 && |b| == 2 && |c| == 4;
    Chain(a, b, c);
  }

  lemma {:induction false} Joins(front: seq<Tokens>, home: seq<nat>, pool: Tokens, extra: Tokens)
    requires |home| == |front| && Group(front) == Grouping(home, 1) && Pool(front, home, 0) == pool
    requires Overlaps(extra, pool)
    ensures Group(front + [extra]) == Grouping(home + [0], 1) && Pool(front + [extra], home + [0], 0) == pool + extra
  {
    GroupOneMore(front, extra);
    PoolOneMore(front, home, extra, 0, 0);
  }

  lemma Seeds(a: Tokens)
    ensures Group([a]) == Grouping([0], 1) && Pool([a], [0], 0) == a
  {
    GroupOneMore([], a);
    PoolOneMore([], [], a, 0, 0);
    assert [] + [a] == [a] && [] + [0 as nat] == [0];
  }

  lemma Chain(a: Tokens, b: Tokens, c: Tokens)
    requires a != {} && a <= b <= c && Overlaps(b, a) && Overlaps(c, b)
    ensures Group([a, b, c]) == Grouping([0, 0, 0], 1) && Pool([a, b, c], [0, 0, 0], 0) == c
  {
    assert a + b == b && b + c == c;
    Seeds(a);
    Joins([a], [0], a, b);
    assert [a] + [b] == [a, b] && [0 as nat] + [0] == [0, 0];
    Joins([a, b], [0, 0], b, c);
    assert [a, b] + [c] == [a, b, c] && [0 as nat, 0] + [0] == [0, 0, 0];
  }

  // ---------------------------------------------------- what a report tells

  /** A keyword's volume, if it was measured. */
  lemma {:induction false} MeasuredVolumes(rows: seq<Keyword>, members: seq<nat>)
    requires forall a :: 0 <= a < |members| ==> members[a] < |rows|
    ensures VolumesOf(rows, members) == [] <==> forall a :: 0 <= a < |members| ==> rows[members[a]].volume == None
  {
    if members != [] { MeasuredVolumes(rows, members[..|members| - 1]); }
  }

  /** The report of a cluster: its name is the first member's phrase, up to 120
      characters, its count that of the members; it has a volume exactly if one of
      them has, and then it is the cluster's share of all volumes. */
  lemma {:induction false} ReportTells(cluster: Cluster, rows: seq<Keyword>, home: seq<nat>, i: nat)
    requires |home| == |rows| && ReportIs(cluster, rows, home, i)
    ensures forall k: nat :: k in Members(home, i) <==> k < |home| && home[k] == i
    ensures cluster.id == ClusterId(i) && cluster.count == |Members(home, i)|
    ensures Members(home, i)[0] < |rows| && var phrase := rows[Members(home, i)[0]].phrase;
      cluster.name <= phrase && |cluster.name| == if |phrase| < 120 then |phrase| else 120
    ensures cluster.volume == None <==> forall k :: 0 <= k < |rows| && home[k] == i ==> rows[k].volume == None
    ensures cluster.volume.Some? ==> cluster.volume.value == Share(Volumes(rows), home, i)
  {
    MembersAre(home, i);
    MeasuredVolumes(rows, Members(home, i));
    VolumeIsTheShare(rows, home, i);
    forall k | 0 <= k < |rows| && home[k] == i
      ensures k in Members(home, i)
    {
    }
  }

  /** Marking puts the cluster's id on each keyword and changes nothing else. */
  lemma MarkingTells(now: seq<Keyword>, was: seq<Keyword>, home: seq<nat>, count: nat, k: nat)
    requires MarkedUpTo(now, was, home, count) && k < |was| && home[k] < count
    ensures now[k].cluster == Some(ClusterId(home[k]))
    ensures now[k].phrase == was[k].phrase && now[k].volume == was[k].volume
  {
  }
}
