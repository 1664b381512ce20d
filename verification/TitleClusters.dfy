/** The title-cannibalisation rule: near-identical titles are merged with a
    union-find whose `find` halves paths, and each cluster of two or more pages
    is reported (audit_engine/rules.py:867-914). */
module TitleClusters {
  import opened Outcomes
  import opened Overlap

  /** A crawled page as the rule sees it; `tokens` are its title's tokens. */
  datatype Page = Page(url: string, status: Option<int>, tokens: set<string>)

  predicate IsSuccess(page: Page) {
    page.status.Some? && 200 <= page.status.value < 300
  }

  /** Jaccard index of at least 0.8, in exact arithmetic. */
  predicate Similar(a: set<string>, b: set<string>) {
    5 * |a * b| >= 4 * |a + b|
  }

  /** The whole-number test is the test of the code on the share of common tokens. */
  lemma SimilarIffJaccard(a: set<string>, b: set<string>)
    requires a != {} && b != {}
    ensures Similar(a, b) <==> Jaccard(a, b) >= 4.0 / 5.0
  {
    ReachesIff(a, b, 4, 5);
  }

  lemma SimilarIsSymmetric(a: set<string>, b: set<string>)
    ensures Similar(a, b) == Similar(b, a)
  {
    assert a * b == b * a;
    assert a + b == b + a;
  }

  // ------------------------------------------------------ connected titles

  /** `path` visits candidates so that each is similar to the next. */
  ghost predicate Chain(c: seq<set<string>>, path: seq<nat>) {
    && |path| > 0
    && (forall k :: 0 <= k < |path| ==> path[k] < |c|)
    && (forall k :: 0 < k < |path| ==> Similar(c[path[k - 1]], c[path[k]]))
  }

  ghost predicate Joins(c: seq<set<string>>, path: seq<nat>, i: nat, j: nat) {
    Chain(c, path) && path[0] == i && path[|path| - 1] == j
  }

  /** A chain of similar titles leads from `i` to `j`. */
  ghost predicate Connected(c: seq<set<string>>, i: nat, j: nat) {
    exists path :: Joins(c, path, i, j)
  }

  lemma ConnectedSelf(c: seq<set<string>>, i: nat)
    requires i < |c|
    ensures Connected(c, i, i)
  {
    assert Joins(c, [i], i, i);
  }

  lemma ConnectedStep(c: seq<set<string>>, i: nat, j: nat)
    requires i < |c| && j < |c| && Similar(c[i], c[j])
    ensures Connected(c, i, j)
  {
    assert Joins(c, [i, j], i, j);
  }

  lemma ConnectedTransitive(c: seq<set<string>>, i: nat, j: nat, k: nat)
    requires Connected(c, i, j) && Connected(c, j, k)
    ensures Connected(c, i, k)
  {
    var p :| Joins(c, p, i, j);
    var q :| Joins(c, q, j, k);
    assert Joins(c, p + q[1..], i, k);
  }

  lemma ConnectedSymmetric(c: seq<set<string>>, i: nat, j: nat)
    requires Connected(c, i, j)
    ensures Connected(c, j, i)
  {
    var p :| Joins(c, p, i, j);
    var q := seq(|p|, k requires 0 <= k < |p| => p[|p| - 1 - k]);
    forall k | 0 < k < |q|
      ensures Similar(c[q[k - 1]], c[q[k]])
    {
      SimilarIsSymmetric(c[q[k - 1]], c[q[k]]);
    }
    assert Joins(c, q, j, i);
  }

  // ------------------------------------------------------------ the forest

  function MaxOf(s: seq<nat>): (m: nat)
    ensures forall i :: 0 <= i < |s| ==> s[i] <= m
  {
    if s == [] then 0
    else
      var rest := MaxOf(s[1..]);
      assert forall i :: 0 < i < |s| ==> s[i] == s[1..][i - 1];
      if s[0] > rest then s[0] else rest
  }

  /** Parent links stay in range and climb in rank, so no walk can circle.  The
      rank exists only in the proof: the code keeps none. */
  ghost predicate Forest(parents: seq<nat>, rank: seq<nat>) {
    && |rank| == |parents|
    && (forall i :: 0 <= i < |parents| ==> parents[i] < |parents|)
    && (forall i :: 0 <= i < |parents| && parents[i] != i ==> rank[i] < rank[parents[i]])
  }

  /** The fixed point reached by following parent links. */
  ghost function Root(parents: seq<nat>, rank: seq<nat>, i: nat): (r: nat)
    requires Forest(parents, rank) && i < |parents|
    ensures r < |parents| && parents[r] == r
    decreases MaxOf(rank) - rank[i]
  {
    if parents[i] == i then i else Root(parents, rank, parents[i])
  }

  /** Labels that are constant along parent links and fix every fixed point are
      exactly the roots. */
  lemma {:induction false} RootIsTheLabel(parents: seq<nat>, rank: seq<nat>, mark: seq<nat>, i: nat)
    requires Forest(parents, rank) && |mark| == |parents| && i < |parents|
    requires forall k :: 0 <= k < |parents| ==> mark[k] == (if parents[k] == k then k else mark[parents[k]])
    ensures Root(parents, rank, i) == mark[i]
    decreases MaxOf(rank) - rank[i]
  {
    if parents[i] != i {
      RootIsTheLabel(parents, rank, mark, parents[i]);
    }
  }

  ghost function Roots(parents: seq<nat>, rank: seq<nat>): (mark: seq<nat>)
    requires Forest(parents, rank)
    ensures |mark| == |parents|
    ensures forall k :: 0 <= k < |parents| ==> mark[k] == Root(parents, rank, k)
  {
    seq(|parents|, k requires 0 <= k < |parents| => Root(parents, rank, k))
  }

  /** Path halving, one step: an element is re-hung on its grandparent and no
      element changes root. */
  lemma HalvingKeepsRoots(parents: seq<nat>, rank: seq<nat>, i: nat)
    requires Forest(parents, rank) && i < |parents| && parents[i] != i
    ensures Forest(parents[i := parents[parents[i]]], rank)
    ensures Roots(parents[i := parents[parents[i]]], rank) == Roots(parents, rank)
  {
    var after := parents[i := parents[parents[i]]];
    var mark := Roots(parents, rank);
    var p := parents[i];
    assert mark[i] == mark[p] && (p != parents[p] ==> mark[p] == mark[parents[p]]);
    assert rank[i] < rank[p] && (p != parents[p] ==> rank[p] < rank[parents[p]]);
    forall k | 0 <= k < |parents|
      ensures Root(after, rank, k) == mark[k]
    {
      RootIsTheLabel(after, rank, mark, k);
    }
  }

  /** Hanging one root below another merges exactly their two trees. */
  lemma LinkMergesTwoTrees(parents: seq<nat>, rank: seq<nat>, low: nat, top: nat)
    returns (lifted: seq<nat>)
    requires Forest(parents, rank) && low < |parents| && top < |parents|
    requires parents[low] == low && parents[top] == top
    ensures Forest(parents[low := top], lifted)
    ensures forall k :: 0 <= k < |parents| ==>
      Root(parents[low := top], lifted, k)
      == (if Root(parents, rank, k) == low then top else Root(parents, rank, k))
  {
    if low == top {
      lifted := rank;
      assert parents[low := top] == parents;
      return;
    }
    lifted := rank[top := if rank[top] > rank[low] then rank[top] else rank[low] + 1];
    var after := parents[low := top];
    var old_ := Roots(parents, rank);
    var mark := seq(|parents|, k requires 0 <= k < |parents| => if old_[k] == low then top else old_[k]);
    forall k | 0 <= k < |parents|
      ensures Root(after, lifted, k) == mark[k]
    {
      RootIsTheLabel(after, lifted, mark, k);
    }
  }

  method Find(parents: array<nat>, ghost rank: seq<nat>, index: nat) returns (root: nat)
    requires Forest(parents[..], rank) && index < parents.Length
    modifies parents
    ensures Forest(parents[..], rank)
    ensures Roots(parents[..], rank) == Roots(old(parents[..]), rank)
    ensures root == Root(old(parents[..]), rank, index)
  {
    root := index;
    while parents[root] != root
      invariant root < parents.Length
      invariant Forest(parents[..], rank)
      invariant Roots(parents[..], rank) == Roots(old(parents[..]), rank)
      invariant Root(parents[..], rank, root) == Root(old(parents[..]), rank, index)
      decreases MaxOf(rank) - rank[root]
    {
      HalvingKeepsRoots(parents[..], rank, root);
      ghost var before := parents[..];
      parents[root] := parents[parents[root]];
      assert parents[..] == before[root := before[before[root]]];
      root := parents[root];
    }
  }

  // ------------------------------------------------------------- the rule

  /** The candidate pages: successful, with at least one title token. */
  function Candidates(pages: seq<Page>): (c: seq<Page>)
    ensures forall page :: page in c <==> page in pages && IsSuccess(page) && page.tokens != {}
  {
    if pages == [] then []
    else
      var rest := Candidates(pages[1..]);
      if IsSuccess(pages[0]) && pages[0].tokens != {} then [pages[0]] + rest else rest
  }

  /** Every similar pair met so far, in the order of the double loop, shares a
      root; every two candidates sharing a root are joined by a chain. */
  ghost predicate MergedUpTo(c: seq<set<string>>, roots: seq<nat>, left: nat, right: nat) {
    && |roots| == |c|
    && (forall i, j :: 0 <= i < |c| && 0 <= j < |c| && roots[i] == roots[j] ==> Connected(c, i, j))
    && (forall i, j :: 0 <= i < j < |c| && (i < left || (i == left && j < right)) && Similar(c[i], c[j])
          ==> roots[i] == roots[j])
  }

  lemma SelfRootedStart(c: seq<set<string>>)
    ensures MergedUpTo(c, seq(|c|, i => i), 0, 1)
  {
    forall i | 0 <= i < |c|
      ensures Connected(c, i, i)
    {
      ConnectedSelf(c, i);
    }
  }

  /** Merging the trees of a similar pair adds no unjoined pair. */
  lemma MergeKeepsSound(c: seq<set<string>>, roots: seq<nat>, after: seq<nat>, left: nat, right: nat)
    requires left < right < |c| && |after| == |c|
    requires MergedUpTo(c, roots, left, right) && Similar(c[left], c[right])
    requires forall k :: 0 <= k < |c| ==> after[k] == (if roots[k] == roots[right] then roots[left] else roots[k])
    ensures MergedUpTo(c, after, left, right + 1)
  {
    ConnectedStep(c, left, right);
    ConnectedSymmetric(c, left, right);
    forall i, j | 0 <= i < |c| && 0 <= j < |c| && after[i] == after[j]
      ensures Connected(c, i, j)
    {
      if roots[i] != roots[j] {
        // one of the two is in the right tree, the other in the left tree
        if roots[i] == roots[right] {
          assert Connected(c, i, right) && Connected(c, left, j);
          ConnectedTransitive(c, i, right, left);
          ConnectedTransitive(c, i, left, j);
        } else {
          assert Connected(c, i, left) && Connected(c, right, j);
          ConnectedTransitive(c, i, left, right);
          ConnectedTransitive(c, i, right, j);
        }
      }
    }
  }

  /** Once all pairs are merged, a chain cannot leave its tree. */
  lemma {:induction false} ChainsStayInTheirTree(c: seq<set<string>>, roots: seq<nat>, path: seq<nat>)
    requires MergedUpTo(c, roots, |c|, 0) && Chain(c, path)
    ensures roots[path[0]] == roots[path[|path| - 1]]
  {
    if |path| > 1 {
      ChainsStayInTheirTree(c, roots, path[1..]);
      var a, b := path[0], path[1];
      assert Similar(c[path[0]], c[path[1]]);
      SimilarIsSymmetric(c[a], c[b]);
      if a < b { assert roots[a] == roots[b]; } else if b < a { assert roots[b] == roots[a]; }
    }
  }

  lemma SameRootIffConnected(c: seq<set<string>>, roots: seq<nat>)
    requires MergedUpTo(c, roots, |c|, 0)
    ensures forall i, j :: 0 <= i < |c| && 0 <= j < |c| ==> (roots[i] == roots[j] <==> Connected(c, i, j))
  {
    forall i, j | 0 <= i < |c| && 0 <= j < |c| && Connected(c, i, j)
      ensures roots[i] == roots[j]
    {
      var path :| Joins(c, path, i, j);
      ChainsStayInTheirTree(c, roots, path);
    }
  }

  /** One union: the right tree is hung below the left tree's root. */
  method Union(parents: array<nat>, ghost rank: seq<nat>, left: nat, right: nat) returns (ghost lifted: seq<nat>)
    requires Forest(parents[..], rank) && left < parents.Length && right < parents.Length
    modifies parents
    ensures Forest(parents[..], lifted)
    ensures forall k :: 0 <= k < parents.Length ==>
      Root(parents[..], lifted, k)
      == (if Root(old(parents[..]), rank, k) == Root(old(parents[..]), rank, right)
          then Root(old(parents[..]), rank, left) else Root(old(parents[..]), rank, k))
  {
    ghost var before := Roots(parents[..], rank);
    var top := Find(parents, rank, left);
    var low := Find(parents, rank, right);
    ghost var flat := parents[..];
    assert Roots(flat, rank) == before;
    lifted := LinkMergesTwoTrees(flat, rank, low, top);
    parents[low] := top;
    assert parents[..] == flat[low := top];
  }

  /** The body of the inner loop. */
  method MergeIfSimilar(c: seq<set<string>>, parents: array<nat>, ghost rank: seq<nat>, left: nat, right: nat)
    returns (ghost rank': seq<nat>)
    requires parents.Length == |c| && left < right < |c| && Forest(parents[..], rank)
    requires MergedUpTo(c, Roots(parents[..], rank), left, right)
    modifies parents
    ensures Forest(parents[..], rank') && MergedUpTo(c, Roots(parents[..], rank'), left, right + 1)
  {
    rank' := rank;
    if Similar(c[left], c[right]) {
      ghost var before := Roots(parents[..], rank);
      rank' := Union(parents, rank, left, right);
      MergeKeepsSound(c, before, Roots(parents[..], rank'), left, right);
    }
  }

  /** The merging double loop: afterwards two candidates share a root exactly
      when a chain of similar titles joins them. */
  method MergeSimilar(c: seq<set<string>>, parents: array<nat>) returns (ghost rank: seq<nat>)
    requires parents.Length == |c|
    requires forall i :: 0 <= i < |c| ==> parents[i] == i
    modifies parents
    ensures Forest(parents[..], rank)
    ensures forall i, j :: 0 <= i < |c| && 0 <= j < |c| ==>
      (Root(parents[..], rank, i) == Root(parents[..], rank, j) <==> Connected(c, i, j))
  {
    rank := seq(|c|, i => 0);
    SelfRootedStart(c);
    assert Roots(parents[..], rank) == seq(|c|, i => i);
    for left := 0 to |c|
      invariant Forest(parents[..], rank)
      invariant MergedUpTo(c, Roots(parents[..], rank), left, left + 1)
    {
      for right := left + 1 to |c|
        invariant Forest(parents[..], rank)
        invariant MergedUpTo(c, Roots(parents[..], rank), left, right)
      {
        rank := MergeIfSimilar(c, parents, rank, left, right);
      }
      assert MergedUpTo(c, Roots(parents[..], rank), left + 1, left + 2);
    }
    SameRootIffConnected(c, Roots(parents[..], rank));
  }

  // ---------------------------------------------------------- the clusters

  /** The candidates below `bound` filed under root `r`, in order. */
  function Members(roots: seq<nat>, r: nat, bound: nat): (members: seq<nat>)
    requires bound <= |roots|
    ensures forall i :: i in members <==> 0 <= i < bound && roots[i] == r
    ensures forall a, b :: 0 <= a < b < |members| ==> members[a] < members[b]
  {
    if bound == 0 then []
    else
      var earlier := Members(roots, r, bound - 1);
      assert forall a :: 0 <= a < |earlier| ==> earlier[a] in earlier;
      if roots[bound - 1] == r then earlier + [bound - 1] else earlier
  }

  ghost predicate IsFirst(roots: seq<nat>, i: nat) {
    i < |roots| && forall j :: 0 <= j < i ==> roots[j] != roots[i]
  }

  /** The candidates that open a new cluster, in order. */
  ghost function Firsts(roots: seq<nat>, bound: nat): (firsts: seq<nat>)
    requires bound <= |roots|
    ensures forall i :: i in firsts <==> 0 <= i < bound && IsFirst(roots, i)
    ensures forall k :: 0 <= k < |firsts| ==> firsts[k] < |roots|
    ensures forall a, b :: 0 <= a < b < |firsts| ==> firsts[a] < firsts[b]
  {
    if bound == 0 then []
    else
      var earlier := Firsts(roots, bound - 1);
      assert forall a :: 0 <= a < |earlier| ==> earlier[a] in earlier;
      if IsFirst(roots, bound - 1) then earlier + [bound - 1] else earlier
  }

  ghost function ClusterOf(roots: seq<nat>, i: nat): (members: seq<nat>)
    requires i < |roots|
  {
    Members(roots, roots[i], |roots|)
  }

  /** Those of `firsts` whose cluster has at least two members, in order. */
  ghost function Large(roots: seq<nat>, firsts: seq<nat>): (large: seq<nat>)
    requires forall k :: 0 <= k < |firsts| ==> firsts[k] < |roots|
    ensures forall i :: i in large <==> i in firsts && i < |roots| && |ClusterOf(roots, i)| >= 2
    ensures forall k :: 0 <= k < |large| ==> large[k] < |roots|
    ensures (forall a, b :: 0 <= a < b < |firsts| ==> firsts[a] < firsts[b])
            ==> forall a, b :: 0 <= a < b < |large| ==> large[a] < large[b]
  {
    if firsts == [] then []
    else
      var last := |firsts| - 1;
      var earlier := Large(roots, firsts[..last]);
      assert forall a :: 0 <= a < |earlier| ==> earlier[a] in earlier;
      assert forall i :: i in firsts <==> i in firsts[..last] || i == firsts[last];
      if |ClusterOf(roots, firsts[last])| >= 2 then earlier + [firsts[last]] else earlier
  }

  /** What the rule reports, as a function of the final roots. */
  ghost function Groups(roots: seq<nat>, large: seq<nat>): (groups: seq<seq<nat>>)
    requires forall k :: 0 <= k < |large| ==> large[k] < |roots|
    ensures |groups| == |large|
    ensures forall g :: 0 <= g < |groups| ==> groups[g] == ClusterOf(roots, large[g])
  {
    seq(|large|, g requires 0 <= g < |large| => ClusterOf(roots, large[g]))
  }

  ghost function Reported(roots: seq<nat>): seq<seq<nat>> {
    Groups(roots, Large(roots, Firsts(roots, |roots|)))
  }

  lemma FirstHeadsItsCluster(roots: seq<nat>, i: nat)
    requires i < |roots|
    ensures ClusterOf(roots, i) != []
    ensures IsFirst(roots, ClusterOf(roots, i)[0])
    ensures IsFirst(roots, i) ==> ClusterOf(roots, i)[0] == i
  {
    var members := ClusterOf(roots, i);
    assert i in members;
    assert members[0] in members;
    forall j | 0 <= j < members[0]
      ensures roots[j] != roots[members[0]]
    {
      assert j !in members;
    }
  }

  /** Clusters as lists of candidate indices: groups ascend, are listed by first
      member, and two distinct candidates share a group exactly when joined. */
  ghost predicate AreTheComponents(c: seq<set<string>>, groups: seq<seq<nat>>) {
    && Ascending(|c|, groups)
    && (forall g, h, i :: 0 <= g < h < |groups| && i in groups[g] ==> i !in groups[h])
    && (forall i, j :: 0 <= i < |c| && 0 <= j < |c| && i != j ==> (Connected(c, i, j) <==> Together(groups, i, j)))
  }

  ghost predicate Ascending(n: nat, groups: seq<seq<nat>>) {
    && (forall g :: 0 <= g < |groups| ==> |groups[g]| >= 2)
    && (forall g, k :: 0 <= g < |groups| && 0 <= k < |groups[g]| ==> groups[g][k] < n)
    && (forall g, a, b :: 0 <= g < |groups| && 0 <= a < b < |groups[g]| ==> groups[g][a] < groups[g][b])
    && (forall g, h :: 0 <= g < h < |groups| ==> groups[g][0] < groups[h][0])
  }

  ghost predicate Together(groups: seq<seq<nat>>, i: nat, j: nat) {
    exists g :: 0 <= g < |groups| && i in groups[g] && j in groups[g]
  }

  lemma ReportedAscends(roots: seq<nat>)
    ensures Ascending(|roots|, Reported(roots))
  {
    var large := Large(roots, Firsts(roots, |roots|));
    forall g | 0 <= g < |large|
      ensures IsFirst(roots, large[g]) && ClusterOf(roots, large[g]) != [] && ClusterOf(roots, large[g])[0] == large[g]
    {
      assert large[g] in large;
      FirstHeadsItsCluster(roots, large[g]);
    }
    forall g, k | 0 <= g < |large| && 0 <= k < |Reported(roots)[g]|
      ensures Reported(roots)[g][k] < |roots|
    {
      assert Reported(roots)[g][k] in ClusterOf(roots, large[g]);
    }
  }

  lemma SameRootIffTogether(roots: seq<nat>, i: nat, j: nat)
    requires i < |roots| && j < |roots| && i != j
    ensures roots[i] == roots[j] <==> Together(Reported(roots), i, j)
  {
    var large := Large(roots, Firsts(roots, |roots|));
    if roots[i] == roots[j] {
      var members := ClusterOf(roots, i);
      assert i in members && j in members;
      FirstHeadsItsCluster(roots, i);
      var first := members[0];
      assert first in members;
      assert |members| >= 2;
      assert ClusterOf(roots, first) == members;
      assert first in large;
      var g :| 0 <= g < |large| && large[g] == first;
      assert Reported(roots)[g] == members;
    }
    if Together(Reported(roots), i, j) {
      var g :| 0 <= g < |large| && i in Reported(roots)[g] && j in Reported(roots)[g];
      assert large[g] in large;
    }
  }

  lemma ReportedAreTheComponents(c: seq<set<string>>, roots: seq<nat>)
    requires |roots| == |c|
    requires forall i, j :: 0 <= i < |c| && 0 <= j < |c| ==> (roots[i] == roots[j] <==> Connected(c, i, j))
    ensures AreTheComponents(c, Reported(roots))
  {
    var large := Large(roots, Firsts(roots, |roots|));
    ReportedAscends(roots);
    forall i, j | 0 <= i < |c| && 0 <= j < |c| && i != j
      ensures Connected(c, i, j) <==> Together(Reported(roots), i, j)
    {
      SameRootIffTogether(roots, i, j);
    }
    forall g, h, i | 0 <= g < h < |large| && i in Reported(roots)[g]
      ensures i !in Reported(roots)[h]
    {
      assert large[g] in large && large[h] in large && IsFirst(roots, large[h]);
      assert roots[i] == roots[large[g]];
    }
  }

  /** The dictionary and its key order after filing the candidates below `i`. */
  ghost predicate Filed(clusters: map<nat, seq<nat>>, order: seq<nat>, roots: seq<nat>, i: nat)
    requires i <= |roots|
  {
    Stored(clusters, roots, i) && Listed(order, roots, i)
  }

  ghost predicate Stored(clusters: map<nat, seq<nat>>, roots: seq<nat>, i: nat)
    requires i <= |roots|
  {
    && (forall r :: r in clusters <==> Members(roots, r, i) != [])
    && (forall r :: r in clusters ==> clusters[r] == Members(roots, r, i))
  }

  ghost predicate Listed(order: seq<nat>, roots: seq<nat>, i: nat)
    requires i <= |roots|
  {
    |order| == |Firsts(roots, i)| && forall k :: 0 <= k < |order| ==> order[k] == roots[Firsts(roots, i)[k]]
  }

  lemma {:induction false} FirstOfItsRootIsUnfiled(roots: seq<nat>, i: nat)
    requires i < |roots|
    ensures IsFirst(roots, i) <==> Members(roots, roots[i], i) == []
  {
    var members := Members(roots, roots[i], i);
    if members != [] {
      assert members[0] in members;
    } else {
      forall j | 0 <= j < i
        ensures roots[j] != roots[i]
      {
        assert j !in members;
      }
    }
  }

  /** `clusters.setdefault(root, []).append(i)`, and the key order it leaves. */
  function Append(clusters: map<nat, seq<nat>>, root: nat, i: nat): map<nat, seq<nat>> {
    clusters[root := (if root in clusters then clusters[root] else []) + [i]]
  }

  function KeyOrder(clusters: map<nat, seq<nat>>, order: seq<nat>, root: nat): seq<nat> {
    if root in clusters then order else order + [root]
  }

  lemma MembersOneMore(roots: seq<nat>, r: nat, i: nat)
    requires i < |roots|
    ensures Members(roots, r, i + 1) == if roots[i] == r then Members(roots, r, i) + [i] else Members(roots, r, i)
  {
  }

  lemma StoreOne(clusters: map<nat, seq<nat>>, roots: seq<nat>, i: nat)
    requires i < |roots| && Stored(clusters, roots, i)
    ensures Stored(Append(clusters, roots[i], i), roots, i + 1)
  {
    var filed := Append(clusters, roots[i], i);
    forall r | true
      ensures r in filed <==> Members(roots, r, i + 1) != []
      ensures r in filed ==> filed[r] == Members(roots, r, i + 1)
    {
      MembersOneMore(roots, r, i);
    }
  }

  lemma FileOne(clusters: map<nat, seq<nat>>, order: seq<nat>, roots: seq<nat>, i: nat)
    requires i < |roots| && Filed(clusters, order, roots, i)
    ensures Filed(Append(clusters, roots[i], i), KeyOrder(clusters, order, roots[i]), roots, i + 1)
  {
    assert Stored(Append(clusters, roots[i], i), roots, i + 1) by { StoreOne(clusters, roots, i); }
    assert Listed(KeyOrder(clusters, order, roots[i]), roots, i + 1) by { FirstOfItsRootIsUnfiled(roots, i); }
  }

  /** `clusters.setdefault(find(i), []).append(...)`. */
  method FileCandidate(parents: array<nat>, ghost rank: seq<nat>, clusters: map<nat, seq<nat>>, order: seq<nat>, i: nat)
    returns (filed: map<nat, seq<nat>>, listed: seq<nat>)
    requires Forest(parents[..], rank) && i < parents.Length
    modifies parents
    ensures Forest(parents[..], rank) && Roots(parents[..], rank) == Roots(old(parents[..]), rank)
    ensures var root := Root(old(parents[..]), rank, i);
      filed == Append(clusters, root, i) && listed == KeyOrder(clusters, order, root)
  {
    var root := Find(parents, rank, i);
    filed, listed := Append(clusters, root, i), KeyOrder(clusters, order, root);
  }

  /** Files every candidate under its root in a dictionary kept in insertion
      order. */
  method FileByRoot(parents: array<nat>, ghost rank: seq<nat>)
    returns (clusters: map<nat, seq<nat>>, order: seq<nat>)
    requires Forest(parents[..], rank)
    modifies parents
    ensures Filed(clusters, order, Roots(old(parents[..]), rank), parents.Length)
  {
    ghost var roots := Roots(parents[..], rank);
    clusters, order := map[], [];
    for i := 0 to parents.Length
      invariant Forest(parents[..], rank) && Roots(parents[..], rank) == roots
      invariant Filed(clusters, order, roots, i)
    {
      FileOne(clusters, order, roots, i);
      clusters, order := FileCandidate(parents, rank, clusters, order, i);
    }
  }

  lemma {:induction false} FiledClusterOf(clusters: map<nat, seq<nat>>, order: seq<nat>, roots: seq<nat>, k: nat)
    requires Filed(clusters, order, roots, |roots|) && k < |order|
    ensures order[k] in clusters && clusters[order[k]] == ClusterOf(roots, Firsts(roots, |roots|)[k])
  {
    assert Firsts(roots, |roots|)[k] in Members(roots, order[k], |roots|);
  }

  lemma {:induction false} LargeOneMore(roots: seq<nat>, firsts: seq<nat>, k: nat)
    requires forall i :: 0 <= i < |firsts| ==> firsts[i] < |roots|
    requires k < |firsts|
    ensures Groups(roots, Large(roots, firsts[..k + 1]))
      == Groups(roots, Large(roots, firsts[..k]))
         + (if |ClusterOf(roots, firsts[k])| >= 2 then [ClusterOf(roots, firsts[k])] else [])
  {
    assert firsts[..k + 1][..k] == firsts[..k];
  }

  /** Keeps the groups of two or more. */
  method FileClusters(parents: array<nat>, ghost rank: seq<nat>) returns (groups: seq<seq<nat>>)
    requires Forest(parents[..], rank)
    modifies parents
    ensures groups == Reported(Roots(old(parents[..]), rank))
  {
    ghost var roots := Roots(parents[..], rank);
    ghost var firsts := Firsts(roots, |roots|);
    var clusters, order := FileByRoot(parents, rank);
    groups := [];
    for k := 0 to |order|
      invariant groups == Groups(roots, Large(roots, firsts[..k]))
    {
      FiledClusterOf(clusters, order, roots, k);
      LargeOneMore(roots, firsts, k);
      if |clusters[order[k]]| >= 2 {
        groups := groups + [clusters[order[k]]];
      }
    }
    assert firsts[..|order|] == firsts;
  }

  function TokenSets(pages: seq<Page>): (c: seq<set<string>>)
    ensures |c| == |pages| && forall k :: 0 <= k < |c| ==> c[k] == pages[k].tokens
  {
    seq(|pages|, k requires 0 <= k < |pages| => pages[k].tokens)
  }

  function Flatten(groups: seq<seq<nat>>): (all: seq<nat>)
    ensures forall i :: i in all <==> exists g :: 0 <= g < |groups| && i in groups[g]
  {
    if groups == [] then []
    else
      var last := |groups| - 1;
      Flatten(groups[..last]) + groups[last]
  }

  /** The whole rule: the reported groups are the connected components with two
      or more candidates, and hold the candidates that have a twin. */
  method Evaluate(pages: seq<Page>) returns (candidates: seq<Page>, groups: seq<seq<nat>>)
    ensures candidates == Candidates(pages)
    ensures AreTheComponents(TokenSets(candidates), groups)
    ensures forall i :: 0 <= i < |candidates| ==> (i in Flatten(groups) <==> HasTwin(TokenSets(candidates), i))
  {
    candidates := Candidates(pages);
    var c := TokenSets(candidates);
    var parents := new nat[|c|](i => i);
    ghost var rank := MergeSimilar(c, parents);
    ghost var roots := Roots(parents[..], rank);
    groups := FileClusters(parents, rank);
    ReportedAreTheComponents(c, roots);
    AllReportedIffTwin(candidates, groups);
  }

  lemma {:induction false} AllReportedIffTwin(candidates: seq<Page>, groups: seq<seq<nat>>)
    requires AreTheComponents(TokenSets(candidates), groups)
    requires forall page :: page in candidates ==> page.tokens != {}
    ensures forall i :: 0 <= i < |candidates| ==> (i in Flatten(groups) <==> HasTwin(TokenSets(candidates), i))
  {
    assert forall k :: 0 <= k < |candidates| ==> candidates[k] in candidates;
    forall i | 0 <= i < |candidates|
      ensures i in Flatten(groups) <==> HasTwin(TokenSets(candidates), i)
    {
      ReportedIffTwin(TokenSets(candidates), groups, i);
    }
  }

  /** A candidate is reported exactly when some other candidate has a similar
      title: belonging to a larger component never needs more than one hop. */
  lemma {:induction false} ReportedIffSimilarToAnother(c: seq<set<string>>, groups: seq<seq<nat>>, i: nat)
    requires AreTheComponents(c, groups) && i < |c|
    ensures i in Flatten(groups) <==> exists j: nat :: j < |c| && j != i && Similar(c[i], c[j])
  {
    if i in Flatten(groups) {
      var g :| 0 <= g < |groups| && i in groups[g];
      var j := if groups[g][0] == i then groups[g][1] else groups[g][0];
      assert j in groups[g] && Together(groups, i, j);
      assert Connected(c, i, j);
      var path :| Joins(c, path, i, j);
      FirstStepAway(c, path);
    }
    if j: nat :| j < |c| && j != i && Similar(c[i], c[j]) {
      ConnectedStep(c, i, j);
      assert Together(groups, i, j);
    }
  }

  /** Some other title shares four fifths of the tokens of both with title `i`. */
  ghost predicate HasTwin(c: seq<set<string>>, i: nat)
    requires i < |c|
  {
    exists j :: 0 <= j < |c| && j != i && Jaccard(c[i], c[j]) >= 4.0 / 5.0
  }

  /** So the rule reports exactly the candidates with such a twin. */
  lemma {:induction false} ReportedIffTwin(c: seq<set<string>>, groups: seq<seq<nat>>, i: nat)
    requires AreTheComponents(c, groups) && i < |c| && forall k :: 0 <= k < |c| ==> c[k] != {}
    ensures i in Flatten(groups) <==> HasTwin(c, i)
  {
    ReportedIffSimilarToAnother(c, groups, i);
    forall j: nat | j < |c|
      ensures Similar(c[i], c[j]) <==> Jaccard(c[i], c[j]) >= 4.0 / 5.0
    {
      SimilarIffJaccard(c[i], c[j]);
    }
  }

  lemma {:induction false} FirstStepAway(c: seq<set<string>>, path: seq<nat>)
    requires Chain(c, path) && path[0] != path[|path| - 1]
    ensures exists j: nat :: j < |c| && j != path[0] && Similar(c[path[0]], c[j])
  {
    if path[1] == path[0] {
      FirstStepAway(c, path[1..]);
    } else {
      assert Similar(c[path[0]], c[path[1]]);
    }
  }
}
