/** js/networkManager.js: what the network view shows for a selected movie. The
    master nodes and edges of that movie are picked out, each node's degree is
    counted, the master records become display records (a size and a label size
    from the degree, an id of the form `oe-from-to-n` for an edge), every pair of
    nodes of one group is joined by a hidden helper edge that pulls the group
    together, and the plot panel gets the escaped plot text. */
module NetworkManager {
  import opened Strings
  import opened Markup
  import opened Config
  import Utils
  import DP = DataProcessor

  /** A node as handed to vis.js (its colours, tooltip element, shape and font face
      are left out). */
  datatype VisNode = VisNode(id: nat, name: string, group: string, actorName: string, movieTitle: string,
                             tmdbPersonId: Option<nat>, size: int, fontSize: int, degree: nat)

  /** An edge as handed to vis.js: `relType` is its `label`, `color` the
      sentiment colour (its font, tooltip element and arrows are left out). */
  datatype VisEdge = VisEdge(id: string, from: nat, to: nat, relType: string, movieTitle: string,
                             width: int, color: string, sentiment: string, strength: int)

  /** A clustering edge: always `hidden: true` with colour opacity 0.1. */
  datatype HelperEdge = HelperEdge(from: nat, to: nat)

  // ---------------------------------------------------------------------------
  // generateHelperEdges

  /** The keys of `groups` once the nodes `ns` are grouped: each group name in the
      order it first appears. */
  function GroupOrder(ns: seq<VisNode>): seq<string>
    decreases |ns|
  {
    if ns == [] then []
    else
      GroupOrder(ns[..|ns| - 1]) +
        (if ns[|ns| - 1].group in GroupOrder(ns[..|ns| - 1]) then [] else [ns[|ns| - 1].group])
  }

  /** `groups[g]`: the ids of the nodes of group `g`, in list order. */
  function Members(ns: seq<VisNode>, g: string): seq<nat>
    decreases |ns|
  {
    if ns == [] then []
    else Members(ns[..|ns| - 1], g) + (if ns[|ns| - 1].group == g then [ns[|ns| - 1].id] else [])
  }

  /** The positions in `ns` of the nodes of group `g`. */
  function MemberIndices(ns: seq<VisNode>, g: string): seq<int>
    decreases |ns|
  {
    if ns == [] then []
    else MemberIndices(ns[..|ns| - 1], g) + (if ns[|ns| - 1].group == g then [|ns| - 1] else [])
  }

  /** The pushes of the inner loop for row `i` while `j` runs up to `k`. */
  function Row(ids: seq<nat>, i: nat, k: nat): seq<HelperEdge>
    requires i < |ids| && k <= |ids|
    decreases k
  {
    if k <= i + 1 then [] else Row(ids, i, k - 1) + [HelperEdge(ids[i], ids[k - 1])]
  }

  /** The pushes of the first `i` rounds of the outer loop. */
  function Rows(ids: seq<nat>, i: nat): seq<HelperEdge>
    requires i <= |ids|
  {
    if i == 0 then [] else Rows(ids, i - 1) + Row(ids, i - 1, |ids|)
  }

  /** The helper edges of one group: every pair, the earlier-listed node first. */
  function Pairs(ids: seq<nat>): seq<HelperEdge> {
    Rows(ids, |ids|)
  }

  /** The helper edges of the groups `gs`, in that order; a group of one node has
      none. */
  function GroupEdges(ns: seq<VisNode>, gs: seq<string>): seq<HelperEdge>
    decreases |gs|
  {
    if gs == [] then [] else GroupEdges(ns, gs[..|gs| - 1]) + OwnEdgesOf(ns, gs[|gs| - 1])
  }

  /** The pushes for group `g`: none unless it has more than one node. */
  function OwnEdgesOf(ns: seq<VisNode>, g: string): seq<HelperEdge> {
    if |Members(ns, g)| > 1 then Pairs(Members(ns, g)) else []
  }

  /** What `generateHelperEdges` returns. */
  function HelperEdgesOf(ns: seq<VisNode>): seq<HelperEdge> {
    GroupEdges(ns, GroupOrder(ns))
  }

  /** `generateHelperEdges`: group the node ids by group name in a dictionary
      (`groupNames` keeps its key order), then push every pair of each group. */
  method GenerateHelperEdges(nodesForClustering: seq<VisNode>) returns (helperEdges: seq<HelperEdge>)
    ensures helperEdges == HelperEdgesOf(nodesForClustering)
  {
    var groups, groupNames := GroupIds(nodesForClustering);
    helperEdges := [];
    var gi := 0;
    while gi < |groupNames|
      invariant 0 <= gi <= |groupNames|
      invariant helperEdges == GroupEdges(nodesForClustering, groupNames[..gi])
    {
      GroupEdgesStep(nodesForClustering, groupNames, gi);
      if |groups[groupNames[gi]]| > 1 {
        helperEdges := PushPairs(helperEdges, groups[groupNames[gi]]);
      }
      gi := gi + 1;
    }
    assert groupNames[..gi] == groupNames;
  }

  /** The `forEach` that fills `groups`; `groupNames` is the key order of `groups`. */
  method GroupIds(nodesForClustering: seq<VisNode>) returns (groups: map<string, seq<nat>>, groupNames: seq<string>)
    ensures groupNames == GroupOrder(nodesForClustering)
    ensures forall g :: g in groups <==> g in groupNames
    ensures forall g :: g in groups ==> groups[g] == Members(nodesForClustering, g)
  {
    groups := map[];
    groupNames := [];
    var n := 0;
    while n < |nodesForClustering|
      invariant 0 <= n <= |nodesForClustering|
      invariant groupNames == GroupOrder(nodesForClustering[..n])
      invariant forall g :: g in groups <==> g in groupNames
      invariant forall g :: g in groups ==> groups[g] == Members(nodesForClustering[..n], g)
    {
      GroupStep(nodesForClustering, n);
      if nodesForClustering[n].group !in groups {
        MembersOutside(nodesForClustering[..n], nodesForClustering[n].group);
        groups := groups[nodesForClustering[n].group := []];
        groupNames := groupNames + [nodesForClustering[n].group];
      }
      groups := groups[nodesForClustering[n].group :=
        groups[nodesForClustering[n].group] + [nodesForClustering[n].id]];
      n := n + 1;
    }
    assert nodesForClustering[..n] == nodesForClustering;
  }

  /** The two nested `for` loops over one group's ids. */
  method PushPairs(acc: seq<HelperEdge>, nodeIdsInGroup: seq<nat>) returns (helperEdges: seq<HelperEdge>)
    ensures helperEdges == acc + Pairs(nodeIdsInGroup)
  {
    helperEdges := acc;
    var i := 0;
    while i < |nodeIdsInGroup|
      invariant 0 <= i <= |nodeIdsInGroup|
      invariant helperEdges == acc + Rows(nodeIdsInGroup, i)
    {
      var j := i + 1;
      while j < |nodeIdsInGroup|
        invariant i + 1 <= j <= |nodeIdsInGroup|
        invariant helperEdges == acc + Rows(nodeIdsInGroup, i) + Row(nodeIdsInGroup, i, j)
      {
        SeqAssoc(acc + Rows(nodeIdsInGroup, i), Row(nodeIdsInGroup, i, j),
          [HelperEdge(nodeIdsInGroup[i], nodeIdsInGroup[j])]);
        helperEdges := helperEdges + [HelperEdge(nodeIdsInGroup[i], nodeIdsInGroup[j])];
        j := j + 1;
      }
      SeqAssoc(acc, Rows(nodeIdsInGroup, i), Row(nodeIdsInGroup, i, |nodeIdsInGroup|));
      i := i + 1;
    }
  }

  /** One more node: its group is appended to the key order if new, and its id to
      its group's list. */
  lemma GroupStep(ns: seq<VisNode>, n: nat)
    requires n < |ns|
    ensures GroupOrder(ns[..n + 1]) ==
      GroupOrder(ns[..n]) + (if ns[n].group in GroupOrder(ns[..n]) then [] else [ns[n].group])
    ensures forall g :: Members(ns[..n + 1], g) == Members(ns[..n], g) + (if ns[n].group == g then [ns[n].id] else [])
  {
    assert ns[..n + 1][..n] == ns[..n];
  }

  lemma GroupEdgesStep(ns: seq<VisNode>, gs: seq<string>, i: nat)
    requires i < |gs|
    ensures GroupEdges(ns, gs[..i + 1]) == GroupEdges(ns, gs[..i]) + OwnEdgesOf(ns, gs[i])
    ensures |Members(ns, gs[i])| <= 1 ==> GroupEdges(ns, gs[..i + 1]) == GroupEdges(ns, gs[..i])
  {
    assert gs[..i + 1][..i] == gs[..i];
    assert GroupEdges(ns, gs[..i]) + [] == GroupEdges(ns, gs[..i]);
  }

  /** A group that has not appeared has no members. */
  lemma {:induction false} MembersOutside(ns: seq<VisNode>, g: string)
    requires g !in GroupOrder(ns)
    ensures Members(ns, g) == []
    decreases |ns|
  {
    if ns != [] {
      MembersOutside(ns[..|ns| - 1], g);
    }
  }

  // ---------------------------------------------------------------------------
  // What the helper edges are

  /** No element occurs twice. */
  predicate Distinct<T(==)>(s: seq<T>) {
    forall p, q :: 0 <= p < q < |s| ==> s[p] != s[q]
  }

  lemma DistinctAppend<T>(a: seq<T>, b: seq<T>)
    requires Distinct(a) && Distinct(b)
    requires forall p, q :: 0 <= p < |a| && 0 <= q < |b| ==> a[p] != b[q]
    ensures Distinct(a + b)
  {
    forall p, q | 0 <= p < q < |a + b| ensures (a + b)[p] != (a + b)[q] {
      if q < |a| {
        assert (a + b)[p] == a[p] && (a + b)[q] == a[q];
      } else if p >= |a| {
        assert (a + b)[p] == b[p - |a|] && (a + b)[q] == b[q - |a|];
      } else {
        assert (a + b)[p] == a[p] && (a + b)[q] == b[q - |a|];
      }
    }
  }

  /** `e` joins positions `a < b` of `ids`, the earlier one first. */
  ghost predicate Joins(ids: seq<nat>, a: int, b: int, e: HelperEdge) {
    0 <= a < b < |ids| && e == HelperEdge(ids[a], ids[b])
  }

  lemma {:induction false} RowFacts(ids: seq<nat>, i: nat, k: nat)
    requires i < |ids| && k <= |ids|
    ensures |Row(ids, i, k)| == if k <= i + 1 then 0 else k - i - 1
    ensures forall p :: 0 <= p < |Row(ids, i, k)| ==> Row(ids, i, k)[p] == HelperEdge(ids[i], ids[i + 1 + p])
    decreases k
  {
    if k > i + 1 {
      RowFacts(ids, i, k - 1);
    }
  }

  lemma RowMembers(ids: seq<nat>, i: nat, k: nat)
    requires i < |ids| && k <= |ids|
    ensures forall e :: e in Row(ids, i, k) <==> exists b :: b < k && Joins(ids, i, b, e)
  {
    RowFacts(ids, i, k);
    forall e | e in Row(ids, i, k) ensures exists b :: b < k && Joins(ids, i, b, e) {
      var p :| 0 <= p < |Row(ids, i, k)| && Row(ids, i, k)[p] == e;
      assert Joins(ids, i, i + 1 + p, e);
    }
    forall b, e | b < k && Joins(ids, i, b, e) ensures e in Row(ids, i, k) {
      assert Row(ids, i, k)[b - i - 1] == e;
    }
  }

  /** Every edge of `rs` starts at one of the first `m` ids. */
  predicate FromsBefore(ids: seq<nat>, rs: seq<HelperEdge>, m: nat)
    requires m <= |ids|
  {
    forall p :: 0 <= p < |rs| ==> rs[p].from in ids[..m]
  }

  lemma RowDistinct(ids: seq<nat>, i: nat, k: nat)
    requires i < |ids| && k <= |ids| && Distinct(ids)
    ensures Distinct(Row(ids, i, k))
  {
    RowFacts(ids, i, k);
  }

  lemma {:induction false} RowsCount(ids: seq<nat>, i: nat)
    requires i <= |ids|
    ensures 2 * |Rows(ids, i)| == i * (2 * |ids| - i - 1)
  {
    if i > 0 {
      RowsCount(ids, i - 1);
      RowFacts(ids, i - 1, |ids|);
      assert (i - 1) * (2 * |ids| - i) == i * (2 * |ids| - i) - (2 * |ids| - i);
    }
  }

  lemma {:induction false} RowsMembers(ids: seq<nat>, i: nat)
    requires i <= |ids|
    ensures forall e :: e in Rows(ids, i) <==> exists a, b :: a < i && Joins(ids, a, b, e)
  {
    if i > 0 {
      RowsMembers(ids, i - 1);
      RowMembers(ids, i - 1, |ids|);
    }
  }

  lemma {:induction false} RowsDistinct(ids: seq<nat>, i: nat)
    requires i <= |ids| && Distinct(ids)
    ensures Distinct(Rows(ids, i)) && FromsBefore(ids, Rows(ids, i), i)
  {
    if i > 0 {
      RowsDistinct(ids, i - 1);
      RowsStepDistinct(ids, i - 1);
    }
  }

  lemma RowsStepDistinct(ids: seq<nat>, m: nat)
    requires m < |ids| && Distinct(ids)
    requires Distinct(Rows(ids, m)) && FromsBefore(ids, Rows(ids, m), m)
    ensures Distinct(Rows(ids, m + 1)) && FromsBefore(ids, Rows(ids, m + 1), m + 1)
  {
    RowFacts(ids, m, |ids|);
    RowDistinct(ids, m, |ids|);
    forall p, q | 0 <= p < |Rows(ids, m)| && 0 <= q < |Row(ids, m, |ids|)|
      ensures Rows(ids, m)[p] != Row(ids, m, |ids|)[q]
    {
      var a :| 0 <= a < m && ids[..m][a] == Rows(ids, m)[p].from;
      assert ids[a] != ids[m];
    }
    DistinctAppend(Rows(ids, m), Row(ids, m, |ids|));
    FromsAppend(ids, Rows(ids, m), Row(ids, m, |ids|), m);
  }

  lemma FromsAppend(ids: seq<nat>, r1: seq<HelperEdge>, r2: seq<HelperEdge>, m: nat)
    requires m < |ids| && FromsBefore(ids, r1, m)
    requires forall q :: 0 <= q < |r2| ==> r2[q].from == ids[m]
    ensures FromsBefore(ids, r1 + r2, m + 1)
  {
    assert ids[..m + 1] == ids[..m] + [ids[m]];
    forall p | 0 <= p < |r1 + r2| ensures (r1 + r2)[p].from in ids[..m + 1] {
      if p < |r1| {
        assert (r1 + r2)[p] == r1[p];
      } else {
        assert (r1 + r2)[p] == r2[p - |r1|];
      }
    }
  }

  /** A group of `k` ids gives `k(k-1)/2` helper edges, one for each pair of
      positions, from the earlier-listed id to the later; distinct ids give
      distinct edges. */
  lemma PairsFacts(ids: seq<nat>)
    ensures 2 * |Pairs(ids)| == |ids| * (|ids| - 1)
    ensures forall e :: e in Pairs(ids) <==> exists a, b :: Joins(ids, a, b, e)
    ensures Distinct(ids) ==> Distinct(Pairs(ids))
  {
    RowsCount(ids, |ids|);
    RowsMembers(ids, |ids|);
    if Distinct(ids) {
      RowsDistinct(ids, |ids|);
    }
  }

  /** `groups[g]` lists, in order, the ids of the nodes at the positions
      `MemberIndices(ns, g)`, which increase and are all the positions of group `g`. */
  lemma {:induction false} MembersFacts(ns: seq<VisNode>, g: string)
    ensures |Members(ns, g)| == |MemberIndices(ns, g)|
    ensures forall t :: 0 <= t < |MemberIndices(ns, g)| ==>
      0 <= MemberIndices(ns, g)[t] < |ns| && ns[MemberIndices(ns, g)[t]].group == g &&
      Members(ns, g)[t] == ns[MemberIndices(ns, g)[t]].id
    ensures forall t, u :: 0 <= t < u < |MemberIndices(ns, g)| ==> MemberIndices(ns, g)[t] < MemberIndices(ns, g)[u]
    ensures forall a :: 0 <= a < |ns| && ns[a].group == g ==> a in MemberIndices(ns, g)
    decreases |ns|
  {
    if ns != [] {
      MembersFacts(ns[..|ns| - 1], g);
    }
  }

  /** Some node of `ns` is in group `g`. */
  ghost predicate HasGroup(ns: seq<VisNode>, g: string) {
    exists a :: 0 <= a < |ns| && ns[a].group == g
  }

  /** The key order lists every group of the nodes once. */
  lemma {:induction false} GroupOrderFacts(ns: seq<VisNode>)
    ensures Distinct(GroupOrder(ns))
    ensures forall g :: g in GroupOrder(ns) <==> HasGroup(ns, g)
    decreases |ns|
  {
    if ns != [] {
      GroupOrderFacts(ns[..|ns| - 1]);
      forall g ensures g in GroupOrder(ns) <==> HasGroup(ns, g) {
        if HasGroup(ns[..|ns| - 1], g) {
          var a :| 0 <= a < |ns| - 1 && ns[..|ns| - 1][a].group == g;
          assert ns[a].group == g;
        }
        if HasGroup(ns, g) {
          var a :| 0 <= a < |ns| && ns[a].group == g;
          if a < |ns| - 1 {
            assert ns[..|ns| - 1][a].group == g;
          }
        }
      }
      if ns[|ns| - 1].group !in GroupOrder(ns[..|ns| - 1]) {
        DistinctAppend(GroupOrder(ns[..|ns| - 1]), [ns[|ns| - 1].group]);
      }
    }
  }

  /** `e` is a helper edge of group `g`. */
  ghost predicate InGroup(ns: seq<VisNode>, g: string, e: HelperEdge) {
    e in Pairs(Members(ns, g))
  }

  /** `e` is a helper edge of one of the groups `gs`. */
  ghost predicate InSomeGroup(ns: seq<VisNode>, gs: seq<string>, e: HelperEdge) {
    exists g :: g in gs && InGroup(ns, g, e)
  }

  lemma InSomeGroupSnoc(ns: seq<VisNode>, gs: seq<string>, e: HelperEdge)
    requires gs != []
    ensures InSomeGroup(ns, gs, e) <==> InSomeGroup(ns, gs[..|gs| - 1], e) || InGroup(ns, gs[|gs| - 1], e)
  {
    if InSomeGroup(ns, gs, e) {
      var g :| g in gs && InGroup(ns, g, e);
      if g != gs[|gs| - 1] {
        assert g in gs[..|gs| - 1];
      }
    }
    if InSomeGroup(ns, gs[..|gs| - 1], e) {
      var g :| g in gs[..|gs| - 1] && InGroup(ns, g, e);
      assert g in gs;
    }
  }

  /** A group's own edges: none when it has a single node. */
  lemma OwnEdges(ns: seq<VisNode>, g: string)
    ensures forall e :: e in OwnEdgesOf(ns, g) <==> InGroup(ns, g, e)
  {
    PairsFacts(Members(ns, g));
  }

  lemma {:induction false} GroupEdgesMembers(ns: seq<VisNode>, gs: seq<string>)
    ensures forall e :: e in GroupEdges(ns, gs) <==> InSomeGroup(ns, gs, e)
    decreases |gs|
  {
    if gs != [] {
      GroupEdgesMembers(ns, gs[..|gs| - 1]);
      OwnEdges(ns, gs[|gs| - 1]);
      forall e ensures e in GroupEdges(ns, gs) <==> InSomeGroup(ns, gs, e) {
        InSomeGroupSnoc(ns, gs, e);
      }
    }
  }

  /** `e` joins the nodes at positions `a < b`, of one group, the earlier first. */
  ghost predicate SameGroupPair(ns: seq<VisNode>, a: int, b: int, e: HelperEdge) {
    0 <= a < b < |ns| && ns[a].group == ns[b].group && e == HelperEdge(ns[a].id, ns[b].id)
  }

  lemma PairInGroup(ns: seq<VisNode>, g: string, e: HelperEdge)
    requires InGroup(ns, g, e)
    ensures exists a, b :: SameGroupPair(ns, a, b, e) && ns[a].group == g
  {
    PairsFacts(Members(ns, g));
    MembersFacts(ns, g);
    var t, u :| Joins(Members(ns, g), t, u, e);
    assert SameGroupPair(ns, MemberIndices(ns, g)[t], MemberIndices(ns, g)[u], e);
  }

  lemma GroupPairIn(ns: seq<VisNode>, a: int, b: int, e: HelperEdge)
    requires SameGroupPair(ns, a, b, e)
    ensures InGroup(ns, ns[a].group, e)
  {
    var g := ns[a].group;
    MembersFacts(ns, g);
    PairsFacts(Members(ns, g));
    var t :| 0 <= t < |MemberIndices(ns, g)| && MemberIndices(ns, g)[t] == a;
    var u :| 0 <= u < |MemberIndices(ns, g)| && MemberIndices(ns, g)[u] == b;
    assert Joins(Members(ns, g), t, u, e);
  }

  /** The helper edges are exactly the pairs of positions `a < b` whose nodes share
      a group, each from the earlier node to the later: none joins two groups, and
      a group of one node gives none. */
  lemma HelperEdgesExactly(ns: seq<VisNode>)
    ensures forall e :: e in HelperEdgesOf(ns) <==> exists a, b :: SameGroupPair(ns, a, b, e)
  {
    GroupEdgesMembers(ns, GroupOrder(ns));
    GroupOrderFacts(ns);
    forall e ensures e in HelperEdgesOf(ns) <==> exists a, b :: SameGroupPair(ns, a, b, e) {
      if e in HelperEdgesOf(ns) {
        assert InSomeGroup(ns, GroupOrder(ns), e);
        var g :| g in GroupOrder(ns) && InGroup(ns, g, e);
        PairInGroup(ns, g, e);
      }
      if exists a, b :: SameGroupPair(ns, a, b, e) {
        var a, b :| SameGroupPair(ns, a, b, e);
        GroupPairIn(ns, a, b, e);
        assert HasGroup(ns, ns[a].group);
        assert InSomeGroup(ns, GroupOrder(ns), e);
      }
    }
  }

  /** Twice the number of unordered pairs within each of the groups `gs`. */
  function TwicePairTotal(ns: seq<VisNode>, gs: seq<string>): int
    decreases |gs|
  {
    if gs == [] then 0
    else TwicePairTotal(ns, gs[..|gs| - 1]) + |Members(ns, gs[|gs| - 1])| * (|Members(ns, gs[|gs| - 1])| - 1)
  }

  lemma {:induction false} GroupEdgesCount(ns: seq<VisNode>, gs: seq<string>)
    ensures 2 * |GroupEdges(ns, gs)| == TwicePairTotal(ns, gs)
    decreases |gs|
  {
    if gs != [] {
      GroupEdgesCount(ns, gs[..|gs| - 1]);
      PairsFacts(Members(ns, gs[|gs| - 1]));
    }
  }

  /** A group of `k` nodes gives `k(k-1)/2` helper edges. */
  lemma HelperEdgesCount(ns: seq<VisNode>)
    ensures 2 * |HelperEdgesOf(ns)| == TwicePairTotal(ns, GroupOrder(ns))
  {
    GroupEdgesCount(ns, GroupOrder(ns));
  }

  /** No two nodes share an id. */
  predicate UniqueIds(ns: seq<VisNode>) {
    forall p, q :: 0 <= p < q < |ns| ==> ns[p].id != ns[q].id
  }

  lemma MembersDistinct(ns: seq<VisNode>, g: string)
    requires UniqueIds(ns)
    ensures Distinct(Members(ns, g))
  {
    MembersFacts(ns, g);
  }

  /** The edges of different groups differ: their first nodes lie in different
      groups. */
  lemma GroupsDisjoint(ns: seq<VisNode>, gs: seq<string>, g: string)
    requires UniqueIds(ns) && g !in gs
    ensures forall p, q :: 0 <= p < |GroupEdges(ns, gs)| && 0 <= q < |OwnEdgesOf(ns, g)| ==>
      GroupEdges(ns, gs)[p] != OwnEdgesOf(ns, g)[q]
  {
    GroupEdgesMembers(ns, gs);
    OwnEdges(ns, g);
    forall p, q | 0 <= p < |GroupEdges(ns, gs)| && 0 <= q < |OwnEdgesOf(ns, g)|
      ensures GroupEdges(ns, gs)[p] != OwnEdgesOf(ns, g)[q]
    {
      assert GroupEdges(ns, gs)[p] in GroupEdges(ns, gs);
      var g' :| g' in gs && InGroup(ns, g', GroupEdges(ns, gs)[p]);
      assert OwnEdgesOf(ns, g)[q] in OwnEdgesOf(ns, g);
      DifferentGroups(ns, g', g, GroupEdges(ns, gs)[p], OwnEdgesOf(ns, g)[q]);
    }
  }

  lemma DifferentGroups(ns: seq<VisNode>, g1: string, g2: string, e1: HelperEdge, e2: HelperEdge)
    requires UniqueIds(ns) && g1 != g2 && InGroup(ns, g1, e1) && InGroup(ns, g2, e2)
    ensures e1 != e2
  {
    PairInGroup(ns, g1, e1);
    PairInGroup(ns, g2, e2);
    var a, b :| SameGroupPair(ns, a, b, e1) && ns[a].group == g1;
    var c, d :| SameGroupPair(ns, c, d, e2) && ns[c].group == g2;
  }

  lemma {:induction false} GroupEdgesDistinct(ns: seq<VisNode>, gs: seq<string>)
    requires UniqueIds(ns) && Distinct(gs)
    ensures Distinct(GroupEdges(ns, gs))
    decreases |gs|
  {
    if gs != [] {
      GroupEdgesDistinct(ns, gs[..|gs| - 1]);
      MembersDistinct(ns, gs[|gs| - 1]);
      PairsFacts(Members(ns, gs[|gs| - 1]));
      GroupsDisjoint(ns, gs[..|gs| - 1], gs[|gs| - 1]);
      DistinctAppend(GroupEdges(ns, gs[..|gs| - 1]), OwnEdgesOf(ns, gs[|gs| - 1]));
    }
  }

  /** With distinct node ids, no helper edge is listed twice: together with
      `HelperEdgesExactly`, one edge per same-group pair. */
  lemma HelperEdgesDistinct(ns: seq<VisNode>)
    requires UniqueIds(ns)
    ensures Distinct(HelperEdgesOf(ns))
  {
    GroupOrderFacts(ns);
    GroupEdgesDistinct(ns, GroupOrder(ns));
  }

  // ---------------------------------------------------------------------------
  // Degrees

  /** An edge touches `id` at one end or both. */
  predicate Touches(e: DP.Edge, id: nat) {
    e.from == id || e.to == id
  }

  /** The degree of `id`: one for each end of an edge at `id`, so a loop counts
      twice. */
  function Degree(edges: seq<DP.Edge>, id: nat): nat
    decreases |edges|
  {
    if edges == [] then 0
    else
      Degree(edges[..|edges| - 1], id) + (if edges[|edges| - 1].from == id then 1 else 0) +
        (if edges[|edges| - 1].to == id then 1 else 0)
  }

  /** `id` is one of the nodes' ids. */
  ghost predicate IsNodeId(nodes: seq<DP.Node>, id: nat) {
    exists k :: 0 <= k < |nodes| && nodes[k].id == id
  }

  /** `id` is an end of one of the edges. */
  ghost predicate IsEndpoint(edges: seq<DP.Edge>, id: nat) {
    exists k :: 0 <= k < |edges| && Touches(edges[k], id)
  }

  /** The degree count of `updateNetworkForMovie`: 0 for every current node, then
      `(nodeDegrees[x] || 0) + 1` for both ends of every current edge. */
  method CountDegrees(nodes: seq<DP.Node>, edges: seq<DP.Edge>) returns (nodeDegrees: map<nat, nat>)
    ensures forall id :: id in nodeDegrees <==> IsNodeId(nodes, id) || IsEndpoint(edges, id)
    ensures forall id :: Count(nodeDegrees, id) == Degree(edges, id)
  {
    nodeDegrees := map[];
    var k := 0;
    while k < |nodes|
      invariant 0 <= k <= |nodes|
      invariant forall id :: id in nodeDegrees <==> IsNodeId(nodes[..k], id)
      invariant forall id :: id in nodeDegrees ==> nodeDegrees[id] == 0
    {
      NodeIdStep(nodes, k);
      nodeDegrees := nodeDegrees[nodes[k].id := 0];
      k := k + 1;
    }
    assert nodes[..k] == nodes;
    k := 0;
    assert edges[..0] == [];
    while k < |edges|
      invariant 0 <= k <= |edges|
      invariant Counted(nodes, edges, k, nodeDegrees)
    {
      ghost var before := nodeDegrees;
      nodeDegrees := nodeDegrees[edges[k].from := Count(nodeDegrees, edges[k].from) + 1];
      nodeDegrees := nodeDegrees[edges[k].to := Count(nodeDegrees, edges[k].to) + 1];
      CountedStep(nodes, edges, k, before, nodeDegrees);
      k := k + 1;
    }
    assert edges[..k] == edges;
  }

  /** The loop invariant of the count: the ends of the first `k` edges counted. */
  ghost predicate Counted(nodes: seq<DP.Node>, edges: seq<DP.Edge>, k: nat, nodeDegrees: map<nat, nat>)
    requires k <= |edges|
  {
    (forall id :: id in nodeDegrees <==> IsNodeId(nodes, id) || IsEndpoint(edges[..k], id)) &&
    (forall id :: Count(nodeDegrees, id) == Degree(edges[..k], id))
  }

  lemma CountedStep(nodes: seq<DP.Node>, edges: seq<DP.Edge>, k: nat, before: map<nat, nat>, after: map<nat, nat>)
    requires k < |edges| && Counted(nodes, edges, k, before)
    requires after == before[edges[k].from := Count(before, edges[k].from) + 1]
      [edges[k].to := Count(before[edges[k].from := Count(before, edges[k].from) + 1], edges[k].to) + 1]
    ensures Counted(nodes, edges, k + 1, after)
  {
    DegreeStep(edges, k);
    var mid := before[edges[k].from := Count(before, edges[k].from) + 1];
    forall id ensures Count(after, id) == Degree(edges[..k + 1], id) {
      assert Count(mid, id) == Count(before, id) + (if edges[k].from == id then 1 else 0);
    }
    forall id ensures id in after <==> IsNodeId(nodes, id) || IsEndpoint(edges[..k + 1], id) {
      assert id in after <==> id in before || Touches(edges[k], id);
    }
  }

  /** `nodeDegrees[id] || 0`. */
  function Count(nodeDegrees: map<nat, nat>, id: nat): nat {
    if id in nodeDegrees then nodeDegrees[id] else 0
  }

  lemma NodeIdStep(nodes: seq<DP.Node>, k: nat)
    requires k < |nodes|
    ensures forall id :: IsNodeId(nodes[..k + 1], id) <==> IsNodeId(nodes[..k], id) || id == nodes[k].id
  {
    forall id ensures IsNodeId(nodes[..k + 1], id) <==> IsNodeId(nodes[..k], id) || id == nodes[k].id {
      if IsNodeId(nodes[..k + 1], id) {
        var j :| 0 <= j < k + 1 && nodes[..k + 1][j].id == id;
        if j < k {
          assert nodes[..k][j].id == id;
        }
      }
      if IsNodeId(nodes[..k], id) {
        var j :| 0 <= j < k && nodes[..k][j].id == id;
        assert nodes[..k + 1][j].id == id;
      }
      if id == nodes[k].id {
        assert nodes[..k + 1][k].id == id;
      }
    }
  }

  lemma DegreeStep(edges: seq<DP.Edge>, k: nat)
    requires k < |edges|
    ensures forall id :: IsEndpoint(edges[..k + 1], id) <==> IsEndpoint(edges[..k], id) || Touches(edges[k], id)
    ensures forall id ::
      Degree(edges[..k + 1], id) ==
        Degree(edges[..k], id) + (if edges[k].from == id then 1 else 0) + (if edges[k].to == id then 1 else 0)
    ensures forall id :: !IsEndpoint(edges[..k], id) ==> Degree(edges[..k], id) == 0
  {
    assert edges[..k + 1][..k] == edges[..k];
    forall id ensures IsEndpoint(edges[..k + 1], id) <==> IsEndpoint(edges[..k], id) || Touches(edges[k], id) {
      if IsEndpoint(edges[..k + 1], id) {
        var j :| 0 <= j < k + 1 && Touches(edges[..k + 1][j], id);
        if j < k {
          assert Touches(edges[..k][j], id);
        }
      }
      if IsEndpoint(edges[..k], id) {
        var j :| 0 <= j < k && Touches(edges[..k][j], id);
        assert Touches(edges[..k + 1][j], id);
      }
      if Touches(edges[k], id) {
        assert Touches(edges[..k + 1][k], id);
      }
    }
    forall id | !IsEndpoint(edges[..k], id) ensures Degree(edges[..k], id) == 0 {
      DegreeZero(edges[..k], id);
    }
  }

  /** A node no edge touches has degree 0, and only such a node. */
  lemma {:induction false} DegreeZero(edges: seq<DP.Edge>, id: nat)
    ensures Degree(edges, id) == 0 <==> !IsEndpoint(edges, id)
    decreases |edges|
  {
    if edges != [] {
      DegreeZero(edges[..|edges| - 1], id);
      if IsEndpoint(edges[..|edges| - 1], id) {
        var j :| 0 <= j < |edges| - 1 && Touches(edges[..|edges| - 1][j], id);
        assert Touches(edges[j], id);
      }
      if IsEndpoint(edges, id) {
        var j :| 0 <= j < |edges| && Touches(edges[j], id);
        if j < |edges| - 1 {
          assert Touches(edges[..|edges| - 1][j], id);
        }
      }
    }
  }

  /** How many times `x` occurs in `ids`. */
  function Occurs(ids: seq<nat>, x: nat): nat
    decreases |ids|
  {
    if ids == [] then 0 else Occurs(ids[..|ids| - 1], x) + (if ids[|ids| - 1] == x then 1 else 0)
  }

  /** The sum of the degrees of `ids`. */
  function SumDegrees(edges: seq<DP.Edge>, ids: seq<nat>): nat
    decreases |ids|
  {
    if ids == [] then 0 else SumDegrees(edges, ids[..|ids| - 1]) + Degree(edges, ids[|ids| - 1])
  }

  lemma {:induction false} OccursOnce(ids: seq<nat>, x: nat)
    requires Distinct(ids)
    ensures Occurs(ids, x) == if x in ids then 1 else 0
    decreases |ids|
  {
    if ids != [] {
      OccursOnce(ids[..|ids| - 1], x);
      assert ids == ids[..|ids| - 1] + [ids[|ids| - 1]];
    }
  }

  /** The last edge adds one to the sum for each of its ends among `ids`. */
  lemma {:induction false} SumDegreesSnoc(edges: seq<DP.Edge>, ids: seq<nat>)
    requires edges != []
    ensures SumDegrees(edges, ids) == SumDegrees(edges[..|edges| - 1], ids) +
      Occurs(ids, edges[|edges| - 1].from) + Occurs(ids, edges[|edges| - 1].to)
    decreases |ids|
  {
    if ids != [] {
      SumDegreesSnoc(edges, ids[..|ids| - 1]);
    }
  }

  /** Every edge adds 1 at each end: over distinct ids that include every end,
      the degrees sum to twice the number of edges. */
  lemma {:induction false} DegreeSum(edges: seq<DP.Edge>, ids: seq<nat>)
    requires Distinct(ids)
    requires forall k :: 0 <= k < |edges| ==> edges[k].from in ids && edges[k].to in ids
    ensures SumDegrees(edges, ids) == 2 * |edges|
    decreases |edges|
  {
    if edges == [] {
      SumNone(ids);
    } else {
      DegreeSum(edges[..|edges| - 1], ids);
      SumDegreesSnoc(edges, ids);
      OccursOnce(ids, edges[|edges| - 1].from);
      OccursOnce(ids, edges[|edges| - 1].to);
    }
  }

  lemma {:induction false} SumNone(ids: seq<nat>)
    ensures SumDegrees([], ids) == 0
    decreases |ids|
  {
    if ids != [] {
      SumNone(ids[..|ids| - 1]);
    }
  }

  // ---------------------------------------------------------------------------
  // _createVisNode

  /** A node's size: 10 plus 10 per connection, capped at 90. */
  function VisNodeSize(degree: nat): (size: int)
    ensures MinNodeSize <= size <= MaxNodeSize
    ensures size == MaxNodeSize <==> degree >= 8
    ensures size == MinNodeSize <==> degree == 0
  {
    var grown := MinNodeSize + degree * BaseSizePerConnection;
    if grown < MaxNodeSize then grown else MaxNodeSize
  }

  /** Better-connected nodes are never drawn smaller. */
  lemma VisNodeSizeMonotone(a: nat, b: nat)
    requires a <= b
    ensures VisNodeSize(a) <= VisNodeSize(b)
  {
  }

  /** The display record of master node `m` at degree `degree`: the master fields
      are copied, and the size and label size grow with the degree within their
      bounds. */
  function VisNodeFor(m: DP.Node, degree: nat): (v: VisNode)
    ensures v.id == m.id && v.name == m.name && v.group == m.rawGroup && v.actorName == m.actorName
    ensures v.movieTitle == m.movieTitle && v.tmdbPersonId == m.tmdbPersonId && v.degree == degree
    ensures MinNodeSize <= v.size <= MaxNodeSize && MinNodeLabelSize <= v.fontSize <= MaxNodeLabelSize
    ensures v.size == MinNodeSize <==> degree == 0
  {
    VisNode(m.id, m.name, m.rawGroup, m.actorName, m.movieTitle, m.tmdbPersonId,
            VisNodeSize(degree), Utils.CalculateNodeFontSize(degree), degree)
  }

  /** `_createVisNode`: the degree is `nodeDegrees[id] || 0`. */
  function CreateVisNode(m: DP.Node, nodeDegrees: map<nat, nat>): (v: VisNode)
    ensures v.id == m.id && v.group == m.rawGroup
    ensures m.id !in nodeDegrees ==> v.degree == 0 && v.size == MinNodeSize
  {
    VisNodeFor(m, Count(nodeDegrees, m.id))
  }

  /** `currentNodesFromMaster.map(_createVisNode)` with the degrees of `edges`. */
  function VisNodes(nodes: seq<DP.Node>, edges: seq<DP.Edge>): (vs: seq<VisNode>)
    ensures |vs| == |nodes|
    ensures forall k :: 0 <= k < |nodes| ==> vs[k] == VisNodeFor(nodes[k], Degree(edges, nodes[k].id))
  {
    seq(|nodes|, k requires 0 <= k < |nodes| => VisNodeFor(nodes[k], Degree(edges, nodes[k].id)))
  }

  // ---------------------------------------------------------------------------
  // _createVisEdge

  predicate IsDigit(c: char) {
    '0' <= c <= '9'
  }

  /** `oe-${from}-${to}-${counter}`. */
  function EdgeId(from: nat, to: nat, counter: nat): string {
    "oe-" + NatToString(from) + "-" + NatToString(to) + "-" + NatToString(counter)
  }

  /** The longest run of digits at the end of `s`. */
  function TrailingDigits(s: string): (d: string)
    ensures |d| <= |s| && forall k :: 0 <= k < |d| ==> IsDigit(d[k])
    decreases |s|
  {
    if s == [] || !IsDigit(s[|s| - 1]) then []
    else TrailingDigits(s[..|s| - 1]) + [s[|s| - 1]]
  }

  lemma {:induction false} TrailingDigitsOf(h: string, d: string)
    requires h == [] || !IsDigit(h[|h| - 1])
    requires forall k :: 0 <= k < |d| ==> IsDigit(d[k])
    ensures TrailingDigits(h + d) == d
    decreases |d|
  {
    if d == [] {
      assert h + d == h;
    } else {
      assert (h + d)[..|h + d| - 1] == h + d[..|d| - 1];
      TrailingDigitsOf(h, d[..|d| - 1]);
    }
  }

  /** The three numbers an edge id is made of. */
  datatype EdgeIdParts = EdgeIdParts(from: nat, to: nat, counter: nat)

  /** `s` with its last `n` characters removed. */
  function DropLast(s: string, n: nat): string
    requires n <= |s|
  {
    s[..|s| - n]
  }

  /** Splits `<rest>-<digits>` into `rest` and the number the digits write. */
  function LastNumber(s: string): Option<(string, nat)> {
    var d := TrailingDigits(s);
    var r := DropLast(s, |d|);
    if d == [] || r == [] || r[|r| - 1] != '-' then None
    else Some((DropLast(r, 1), DigitsValue(d)))
  }

  lemma LastNumberOf(h: string, n: nat)
    ensures LastNumber(h + "-" + NatToString(n)) == Some((h, n))
  {
    var d := NatToString(n);
    TrailingDigitsOf(h + "-", d);
    assert DropLast(h + "-" + d, |d|) == h + "-";
    assert DropLast(h + "-", 1) == h;
    NatToStringRoundTrip(n);
  }

  /** Reads an id `oe-<from>-<to>-<counter>` back, right to left. */
  function ParseEdgeId(s: string): Option<EdgeIdParts> {
    match LastNumber(s)
    case None => None
    case Some((r1, c)) =>
      match LastNumber(r1)
      case None => None
      case Some((r2, t)) =>
        match LastNumber(r2)
        case None => None
        case Some((r3, f)) => if r3 == "oe" then Some(EdgeIdParts(f, t, c)) else None
  }

  /** Every edge id reads back as the numbers it was made from. */
  lemma EdgeIdRoundTrip(from: nat, to: nat, counter: nat)
    ensures ParseEdgeId(EdgeId(from, to, counter)) == Some(EdgeIdParts(from, to, counter))
  {
    var h1 := "oe" + "-" + NatToString(from);
    var h2 := h1 + "-" + NatToString(to);
    assert EdgeId(from, to, counter) == h2 + "-" + NatToString(counter);
    LastNumberOf(h2, counter);
    LastNumberOf(h1, to);
    LastNumberOf("oe", from);
  }

  /** Two edge ids are equal only when all three numbers are. */
  lemma EdgeIdInjective(a: nat, b: nat, n: nat, c: nat, d: nat, m: nat)
    requires EdgeId(a, b, n) == EdgeId(c, d, m)
    ensures a == c && b == d && n == m
  {
    EdgeIdRoundTrip(a, b, n);
    EdgeIdRoundTrip(c, d, m);
  }

  /** `_createVisEdge`: the master fields are copied, the width comes from the
      strength, and the id names the two ends and the counter. */
  function CreateVisEdge(m: DP.Edge, counter: nat): (v: VisEdge)
    ensures v.id == EdgeId(m.from, m.to, counter)
    ensures v.from == m.from && v.to == m.to && v.relType == m.rawLabel && v.movieTitle == m.movieTitle
    ensures v.color == m.rawBaseColor && v.sentiment == m.rawSentiment && v.strength == m.rawStrength
    ensures 1 <= v.width <= 25 && (v.width > 1 <==> 2 <= m.rawStrength <= 5)
  {
    VisEdge(EdgeId(m.from, m.to, counter), m.from, m.to, m.rawLabel, m.movieTitle,
            Utils.GetEdgeWidth(m.rawStrength), m.rawBaseColor, m.rawSentiment, m.rawStrength)
  }

  /** `currentEdgesFromMaster.map(e => _createVisEdge(e, edgeVisIdCounter++))`:
      edge `k` gets counter `k`, so no two display edges share an id. */
  method ProcessEdges(current: seq<DP.Edge>) returns (processed: seq<VisEdge>)
    ensures |processed| == |current|
    ensures forall k :: 0 <= k < |current| ==> processed[k] == CreateVisEdge(current[k], k)
    ensures forall p, q :: 0 <= p < q < |processed| ==> processed[p].id != processed[q].id
  {
    processed := [];
    var edgeVisIdCounter: nat := 0;
    while edgeVisIdCounter < |current|
      invariant edgeVisIdCounter <= |current| && |processed| == edgeVisIdCounter
      invariant forall k :: 0 <= k < edgeVisIdCounter ==> processed[k] == CreateVisEdge(current[k], k)
    {
      ProcessedStep(current, processed, edgeVisIdCounter);
      processed := processed + [CreateVisEdge(current[edgeVisIdCounter], edgeVisIdCounter)];
      edgeVisIdCounter := edgeVisIdCounter + 1;
    }
    EdgeIdsDistinct(current, processed);
  }

  lemma EdgeIdsDistinct(current: seq<DP.Edge>, processed: seq<VisEdge>)
    requires |processed| == |current|
    requires forall k :: 0 <= k < |current| ==> processed[k] == CreateVisEdge(current[k], k)
    ensures forall p, q :: 0 <= p < q < |processed| ==> processed[p].id != processed[q].id
  {
    forall p, q | 0 <= p < q < |processed|
      ensures processed[p].id != processed[q].id
    {
      if processed[p].id == processed[q].id {
        EdgeIdInjective(current[p].from, current[p].to, p, current[q].from, current[q].to, q);
      }
    }
  }

  lemma ProcessedStep(current: seq<DP.Edge>, processed: seq<VisEdge>, n: nat)
    requires n < |current| && |processed| == n
    requires forall k :: 0 <= k < n ==> processed[k] == CreateVisEdge(current[k], k)
    ensures forall k :: 0 <= k < n + 1 ==>
      (processed + [CreateVisEdge(current[n], n)])[k] == CreateVisEdge(current[k], k)
  {
  }

  // ---------------------------------------------------------------------------
  // updateNetworkForMovie: the movie filter

  /** No two nodes share an id. */
  predicate NodeIdsDistinct(ns: seq<DP.Node>) {
    forall p, q :: 0 <= p < q < |ns| ==> ns[p].id != ns[q].id
  }

  /** `globalNodes.filter(node => node.movieTitle === t)`. */
  function FilterNodes(ns: seq<DP.Node>, t: string): (r: seq<DP.Node>)
    ensures forall k :: 0 <= k < |r| ==> r[k] in ns && r[k].movieTitle == t
    decreases |ns|
  {
    if ns == [] then []
    else FilterNodes(ns[..|ns| - 1], t) + (if ns[|ns| - 1].movieTitle == t then [ns[|ns| - 1]] else [])
  }

  /** Every node of the movie is kept. */
  lemma {:induction false} FilterNodesComplete(ns: seq<DP.Node>, t: string)
    ensures forall n :: n in ns && n.movieTitle == t ==> n in FilterNodes(ns, t)
    decreases |ns|
  {
    if ns != [] {
      FilterNodesComplete(ns[..|ns| - 1], t);
      assert ns == ns[..|ns| - 1] + [ns[|ns| - 1]];
    }
  }

  /** Filtering keeps the order: filtering a concatenation filters each part. */
  lemma {:induction false} FilterNodesAppend(a: seq<DP.Node>, b: seq<DP.Node>, t: string)
    ensures FilterNodes(a + b, t) == FilterNodes(a, t) + FilterNodes(b, t)
    decreases |b|
  {
    if b == [] {
      assert a + b == a;
    } else {
      assert (a + b)[..|a + b| - 1] == a + b[..|b| - 1];
      FilterNodesAppend(a, b[..|b| - 1], t);
      SeqAssoc(FilterNodes(a, t), FilterNodes(b[..|b| - 1], t),
               if b[|b| - 1].movieTitle == t then [b[|b| - 1]] else []);
    }
  }

  /** A filter of nodes with distinct ids has distinct ids. */
  lemma {:induction false} FilterNodesDistinct(ns: seq<DP.Node>, t: string)
    requires NodeIdsDistinct(ns)
    ensures NodeIdsDistinct(FilterNodes(ns, t))
    decreases |ns|
  {
    if ns != [] {
      var init := ns[..|ns| - 1];
      assert NodeIdsDistinct(init) by {
        forall p, q | 0 <= p < q < |init| ensures init[p].id != init[q].id {
          assert init[p] == ns[p] && init[q] == ns[q];
        }
      }
      FilterNodesDistinct(init, t);
      if ns[|ns| - 1].movieTitle == t {
        FilterSnocDistinct(ns, FilterNodes(init, t));
      }
    }
  }

  lemma FilterSnocDistinct(ns: seq<DP.Node>, r0: seq<DP.Node>)
    requires ns != [] && NodeIdsDistinct(ns) && NodeIdsDistinct(r0)
    requires forall k :: 0 <= k < |r0| ==> r0[k] in ns[..|ns| - 1]
    ensures NodeIdsDistinct(r0 + [ns[|ns| - 1]])
  {
    var r := r0 + [ns[|ns| - 1]];
    forall p, q | 0 <= p < q < |r| ensures r[p].id != r[q].id {
      if q == |r0| {
        assert r0[p] in ns[..|ns| - 1];
        var j :| 0 <= j < |ns| - 1 && ns[..|ns| - 1][j] == r0[p];
        assert ns[j] == r0[p];
      } else {
        assert r[p] == r0[p] && r[q] == r0[q];
      }
    }
  }

  /** `new Set(currentNodesFromMaster.map(n => n.id))`. */
  function NodeIds(ns: seq<DP.Node>): (ids: set<nat>)
    ensures forall id :: id in ids <==> IsNodeId(ns, id)
  {
    set k | 0 <= k < |ns| :: ns[k].id
  }

  /** Keeps the edges of movie `t` with both ends among `ids`. */
  function FilterEdges(es: seq<DP.Edge>, t: string, ids: set<nat>): (r: seq<DP.Edge>)
    ensures forall k :: 0 <= k < |r| ==> r[k] in es && r[k].movieTitle == t && r[k].from in ids && r[k].to in ids
    decreases |es|
  {
    if es == [] then []
    else
      var e := es[|es| - 1];
      FilterEdges(es[..|es| - 1], t, ids) + (if e.movieTitle == t && e.from in ids && e.to in ids then [e] else [])
  }

  /** Every edge of the movie between two kept ids is kept. */
  lemma {:induction false} FilterEdgesComplete(es: seq<DP.Edge>, t: string, ids: set<nat>)
    ensures forall e :: e in es && e.movieTitle == t && e.from in ids && e.to in ids ==> e in FilterEdges(es, t, ids)
    decreases |es|
  {
    if es != [] {
      FilterEdgesComplete(es[..|es| - 1], t, ids);
      assert es == es[..|es| - 1] + [es[|es| - 1]];
    }
  }

  /** `allMovieData.find(movie => movie.movie_title === t)`: the position of the
      first movie with that exact title, or `|ms|`. */
  function FirstTitled(ms: seq<DP.Movie>, t: string): (i: nat)
    ensures i <= |ms| && (i < |ms| ==> ms[i].title == Some(t))
    ensures forall j :: 0 <= j < i ==> ms[j].title != Some(t)
    decreases |ms|
  {
    if ms == [] then 0 else if ms[0].title == Some(t) then 0 else 1 + FirstTitled(ms[1..], t)
  }

  function FindMovie(ms: seq<DP.Movie>, t: string): (r: Option<DP.Movie>)
    ensures r.None? <==> forall k :: 0 <= k < |ms| ==> ms[k].title != Some(t)
    ensures r.Some? ==> r.value == ms[FirstTitled(ms, t)]
  {
    var i := FirstTitled(ms, t);
    if i < |ms| then Some(ms[i]) else None
  }

  // ---------------------------------------------------------------------------
  // updateNetworkForMovie: the plot panel

  const PlotInitial: string := "<p class=\"info-placeholder\">Plot summary will appear here once a movie is selected.</p>"
  const PlotNotAvailable: string := "<p class=\"info-placeholder\">Plot summary not available for this movie.</p>"
  const NoMoviesPanel: string := "<p class=\"info-placeholder\">No movies available.</p>"
  const SelectPanel: string := "<p class=\"info-placeholder\">Select a movie.</p>"

  /** The message for a selected title that no movie has (the title is not escaped). */
  function MissingPanel(t: string): string {
    "<p class=\"info-placeholder\" style=\"color: #ffcc00;\">Plot data missing for \"" + t + "\".</p>"
  }

  /** The plot as HTML: escaped, with each newline turned into `<br>`; a placeholder
      when there is no plot. */
  function FormatPlot(plot: string): string {
    if plot == "" then PlotNotAvailable else Utils.ReplaceAll(Utils.HtmlEscape(plot), '\n', LineBreak)
  }

  /** Each character on its own: a newline becomes `<br>`, any other is escaped. */
  function BrChars(s: string): string {
    if s == [] then [] else (if s[0] == '\n' then LineBreak else Utils.EscapeChar(s[0])) + BrChars(s[1..])
  }

  lemma {:induction false} EscapedLines(s: string)
    ensures Utils.ReplaceAll(Utils.EscapeChars(s), '\n', LineBreak) == BrChars(s)
    decreases |s|
  {
    if s != [] {
      Utils.ReplaceAllAppend(Utils.EscapeChar(s[0]), Utils.EscapeChars(s[1..]), '\n', LineBreak);
      EscapedLine(s[0]);
      EscapedLines(s[1..]);
    }
  }

  lemma EscapedLine(c: char)
    ensures Utils.ReplaceAll(Utils.EscapeChar(c), '\n', LineBreak) == if c == '\n' then LineBreak else Utils.EscapeChar(c)
  {
    if c == '\n' {
      assert Utils.EscapeChar(c) == [c];
      assert Utils.ReplaceAll([c], '\n', LineBreak) == LineBreak + Utils.ReplaceAll([], '\n', LineBreak);
    } else {
      Utils.ReplaceAllAbsent(Utils.EscapeChar(c), '\n', LineBreak);
    }
  }

  lemma {:induction false} BrCharsShow(s: string, open: seq<string>)
    ensures WellFormed(BrChars(s), {LineBreak})
    ensures Render(BrChars(s), open) == Plain(s, open)
    ensures OpenAfter(BrChars(s), open) == open
    decreases |s|
  {
    if s != [] {
      PlotTagsAreTags();
      var x := if s[0] == '\n' then LineBreak else Utils.EscapeChar(s[0]);
      if s[0] == '\n' {
        RenderTag(LineBreak, open);
      } else {
        Utils.EscapeCharShows(s[0], open);
        WellFormedMono(x, {}, {LineBreak});
      }
      BrCharsShow(s[1..], open);
      RenderAppend(x, BrChars(s[1..]), {LineBreak}, open);
      WellFormedAppend(x, BrChars(s[1..]), {LineBreak});
      assert Plain(s, open) == [Styled(s[0], open)] + Plain(s[1..], open);
    }
  }

  /** A non-empty plot is shown exactly, newlines included, as safe markup whose
      only tag is `<br>` and which leaves nothing open. */
  lemma FormatPlotShows(plot: string)
    requires plot != ""
    ensures WellFormed(FormatPlot(plot), {LineBreak})
    ensures Text(FormatPlot(plot)) == plot
    ensures Balanced(FormatPlot(plot))
  {
    EscapedLines(plot);
    BrCharsShow(plot, []);
    forall open ensures OpenAfter(FormatPlot(plot), open) == open {
      BrCharsShow(plot, open);
    }
  }

  // ---------------------------------------------------------------------------
  // updateNetworkForMovie

  /** A title that names a movie: not empty and not the placeholder option. */
  predicate Chosen(selected: string) {
    selected != "" && selected != DP.NoMoviesAvailable
  }

  /** `rawCurrentMoviePlot` and `formattedOriginalPlotHTML` after an update. */
  datatype PlotPanel = PlotPanel(raw: string, html: string)

  function PlotPanelFor(selected: string, ms: seq<DP.Movie>): PlotPanel {
    if Chosen(selected) then
      match FindMovie(ms, selected)
      case Some(m) => PlotPanel(m.plot, FormatPlot(m.plot))
      case None => PlotPanel("", MissingPanel(selected))
    else PlotPanel("", if selected == DP.NoMoviesAvailable then NoMoviesPanel else SelectPanel)
  }

  /** `currentNodesFromMaster`: the master nodes of the selected movie, or none. */
  function CurrentNodes(selected: string, nodes: seq<DP.Node>, ms: seq<DP.Movie>): seq<DP.Node> {
    if Chosen(selected) && FindMovie(ms, selected).Some? then FilterNodes(nodes, selected) else []
  }

  /** `currentEdgesFromMaster`: the master edges of the selected movie between two
      of its current nodes, or none. */
  function CurrentEdges(selected: string, nodes: seq<DP.Node>, edges: seq<DP.Edge>, ms: seq<DP.Movie>): seq<DP.Edge> {
    if Chosen(selected) && FindMovie(ms, selected).Some? then
      FilterEdges(edges, selected, NodeIds(CurrentNodes(selected, nodes, ms)))
    else []
  }

  /** `processedEdges`: edge `k` built with counter `k`. */
  function VisEdges(es: seq<DP.Edge>): (vs: seq<VisEdge>)
    ensures |vs| == |es|
  {
    seq(|es|, k requires 0 <= k < |es| => CreateVisEdge(es[k], k))
  }

  /** Lines 71-96 of `updateNetworkForMovie`: the selected movie's master nodes and
      edges, and the new values of `rawCurrentMoviePlot` and
      `formattedOriginalPlotHTML`. */
  method SelectMovie(selectedMovieTitle: string, globalNodes: seq<DP.Node>,
                     globalEdges: seq<DP.Edge>, allMovieData: seq<DP.Movie>)
    returns (currentNodesFromMaster: seq<DP.Node>, currentEdgesFromMaster: seq<DP.Edge>, panel: PlotPanel)
    ensures currentNodesFromMaster == CurrentNodes(selectedMovieTitle, globalNodes, allMovieData)
    ensures currentEdgesFromMaster == CurrentEdges(selectedMovieTitle, globalNodes, globalEdges, allMovieData)
    ensures panel == PlotPanelFor(selectedMovieTitle, allMovieData)
  {
    currentNodesFromMaster := [];
    currentEdgesFromMaster := [];
    var selectedMovieData := FindMovie(allMovieData, selectedMovieTitle);
    if selectedMovieTitle != "" && selectedMovieTitle != DP.NoMoviesAvailable {
      if selectedMovieData.Some? {
        currentNodesFromMaster := FilterNodes(globalNodes, selectedMovieTitle);
        var currentNodeIds := NodeIds(currentNodesFromMaster);
        currentEdgesFromMaster := FilterEdges(globalEdges, selectedMovieTitle, currentNodeIds);
        var rawCurrentMoviePlot := selectedMovieData.value.plot;
        panel := PlotPanel(rawCurrentMoviePlot, FormatPlot(rawCurrentMoviePlot));
      } else {
        panel := PlotPanel("", MissingPanel(selectedMovieTitle));
      }
    } else {
      panel := PlotPanel("", if selectedMovieTitle == DP.NoMoviesAvailable then NoMoviesPanel else SelectPanel);
    }
  }

  /** Lines 99-109 of `updateNetworkForMovie`: the degrees of the current nodes,
      their display records, the numbered display edges and the helper edges. */
  method ProcessCurrent(currentNodesFromMaster: seq<DP.Node>, currentEdgesFromMaster: seq<DP.Edge>)
    returns (processedNodes: seq<VisNode>, processedEdges: seq<VisEdge>, helperClusteringEdges: seq<HelperEdge>)
    ensures processedNodes == VisNodes(currentNodesFromMaster, currentEdgesFromMaster)
    ensures processedEdges == VisEdges(currentEdgesFromMaster)
    ensures helperClusteringEdges == HelperEdgesOf(processedNodes)
  {
    var nodeDegrees := CountDegrees(currentNodesFromMaster, currentEdgesFromMaster);
    processedNodes := seq(|currentNodesFromMaster|, k requires 0 <= k < |currentNodesFromMaster| =>
      CreateVisNode(currentNodesFromMaster[k], nodeDegrees));
    assert processedNodes == VisNodes(currentNodesFromMaster, currentEdgesFromMaster);
    processedEdges := ProcessEdges(currentEdgesFromMaster);
    assert processedEdges == VisEdges(currentEdgesFromMaster);
    helperClusteringEdges := GenerateHelperEdges(processedNodes);
  }

  /** The network view: the plot panel state of js/networkManager.js and what its
      data sets hold. `initialized` says whether `network` has been created. */
  class NetworkView {
    var initialized: bool
    var rawCurrentMoviePlot: string
    var formattedOriginalPlotHTML: string
    var shownNodes: seq<VisNode>
    var shownEdges: seq<VisEdge>
    var shownHelperEdges: seq<HelperEdge>

    constructor (networkReady: bool)
      ensures initialized == networkReady
      ensures rawCurrentMoviePlot == "" && formattedOriginalPlotHTML == PlotInitial
      ensures shownNodes == [] && shownEdges == [] && shownHelperEdges == []
    {
      initialized := networkReady;
      rawCurrentMoviePlot := "";
      formattedOriginalPlotHTML := PlotInitial;
      shownNodes := [];
      shownEdges := [];
      shownHelperEdges := [];
    }

    /** `updateNetworkForMovie`: the plot panel is always updated; the data sets are
        replaced only once the network exists. */
    method UpdateNetworkForMovie(selectedMovieTitle: string, globalNodes: seq<DP.Node>,
                                 globalEdges: seq<DP.Edge>, allMovieData: seq<DP.Movie>)
      modifies this
      ensures initialized == old(initialized)
      ensures PlotPanel(rawCurrentMoviePlot, formattedOriginalPlotHTML) == PlotPanelFor(selectedMovieTitle, allMovieData)
      ensures !initialized ==>
        shownNodes == old(shownNodes) && shownEdges == old(shownEdges) && shownHelperEdges == old(shownHelperEdges)
      ensures initialized ==>
        var cur := CurrentNodes(selectedMovieTitle, globalNodes, allMovieData);
        var curEdges := CurrentEdges(selectedMovieTitle, globalNodes, globalEdges, allMovieData);
        shownNodes == VisNodes(cur, curEdges) && shownEdges == VisEdges(curEdges) &&
        shownHelperEdges == HelperEdgesOf(shownNodes)
    {
      var currentNodesFromMaster, currentEdgesFromMaster, panel :=
        SelectMovie(selectedMovieTitle, globalNodes, globalEdges, allMovieData);
      rawCurrentMoviePlot := panel.raw;
      formattedOriginalPlotHTML := panel.html;
      var processedNodes, processedEdges, helperClusteringEdges := ProcessCurrent(currentNodesFromMaster, currentEdgesFromMaster);

      if !initialized {
        return;
      }
      shownNodes := processedNodes;
      shownEdges := processedEdges;
      shownHelperEdges := helperClusteringEdges;
    }
  }

  // ---------------------------------------------------------------------------
  // What an update shows

  /** The master nodes all have different ids, since node `i` has id `i`. */
  lemma MasterNodeIdsDistinct(ms: seq<DP.Movie>)
    ensures NodeIdsDistinct(DP.NodesOf(DP.Entries(ms)))
  {
    DP.NodesExactly(ms);
  }

  /** A selected movie that exists shows exactly its own master nodes, and exactly
      its own master edges between two of them; anything else shows nothing. */
  lemma CurrentExactly(selected: string, nodes: seq<DP.Node>, edges: seq<DP.Edge>, ms: seq<DP.Movie>)
    ensures !Chosen(selected) || FindMovie(ms, selected).None? ==>
      CurrentNodes(selected, nodes, ms) == [] && CurrentEdges(selected, nodes, edges, ms) == []
    ensures Chosen(selected) && FindMovie(ms, selected).Some? ==>
      (forall n :: n in CurrentNodes(selected, nodes, ms) <==> n in nodes && n.movieTitle == selected) &&
      (forall e :: e in CurrentEdges(selected, nodes, edges, ms) <==>
        e in edges && e.movieTitle == selected &&
        e.from in NodeIds(CurrentNodes(selected, nodes, ms)) && e.to in NodeIds(CurrentNodes(selected, nodes, ms)))
  {
    if Chosen(selected) && FindMovie(ms, selected).Some? {
      FilterNodesComplete(nodes, selected);
      FilterEdgesComplete(edges, selected, NodeIds(CurrentNodes(selected, nodes, ms)));
      forall n | n in CurrentNodes(selected, nodes, ms) ensures n in nodes && n.movieTitle == selected {
        var r := CurrentNodes(selected, nodes, ms);
        var k :| 0 <= k < |r| && r[k] == n;
      }
      forall e | e in CurrentEdges(selected, nodes, edges, ms)
        ensures e in edges && e.movieTitle == selected &&
          e.from in NodeIds(CurrentNodes(selected, nodes, ms)) && e.to in NodeIds(CurrentNodes(selected, nodes, ms))
      {
        var r := CurrentEdges(selected, nodes, edges, ms);
        var k :| 0 <= k < |r| && r[k] == e;
      }
    }
  }

  /** Some shown node has id `id`. */
  ghost predicate IsShownId(vs: seq<VisNode>, id: nat) {
    exists j :: 0 <= j < |vs| && vs[j].id == id
  }

  /** Every shown edge belongs to the selected movie and joins two shown nodes. */
  lemma ShownEdgesWithin(selected: string, nodes: seq<DP.Node>, edges: seq<DP.Edge>, ms: seq<DP.Movie>)
    ensures forall k :: 0 <= k < |VisEdges(CurrentEdges(selected, nodes, edges, ms))| ==>
      VisEdges(CurrentEdges(selected, nodes, edges, ms))[k].movieTitle == selected &&
      IsShownId(VisNodes(CurrentNodes(selected, nodes, ms), CurrentEdges(selected, nodes, edges, ms)),
                VisEdges(CurrentEdges(selected, nodes, edges, ms))[k].from) &&
      IsShownId(VisNodes(CurrentNodes(selected, nodes, ms), CurrentEdges(selected, nodes, edges, ms)),
                VisEdges(CurrentEdges(selected, nodes, edges, ms))[k].to)
  {
    var cur := CurrentNodes(selected, nodes, ms);
    var es := CurrentEdges(selected, nodes, edges, ms);
    var vs := VisNodes(cur, es);
    forall k | 0 <= k < |es|
      ensures VisEdges(es)[k].movieTitle == selected && IsShownId(vs, VisEdges(es)[k].from) && IsShownId(vs, VisEdges(es)[k].to)
    {
      assert VisEdges(es)[k] == CreateVisEdge(es[k], k);
      assert IsNodeId(cur, es[k].from) && IsNodeId(cur, es[k].to);
      var a :| 0 <= a < |cur| && cur[a].id == es[k].from;
      var b :| 0 <= b < |cur| && cur[b].id == es[k].to;
      assert vs[a].id == es[k].from && vs[b].id == es[k].to;
    }
  }

  /** The ids of `ns`, in order. */
  function IdSeq(ns: seq<DP.Node>): (ids: seq<nat>)
    ensures |ids| == |ns| && forall k :: 0 <= k < |ns| ==> ids[k] == ns[k].id
  {
    seq(|ns|, k requires 0 <= k < |ns| => ns[k].id)
  }

  /** The sum of the `degree` fields of the shown nodes. */
  function TotalDegree(vs: seq<VisNode>): nat
    decreases |vs|
  {
    if vs == [] then 0 else TotalDegree(vs[..|vs| - 1]) + vs[|vs| - 1].degree
  }

  lemma {:induction false} TotalDegreeIs(ns: seq<DP.Node>, edges: seq<DP.Edge>)
    ensures TotalDegree(VisNodes(ns, edges)) == SumDegrees(edges, IdSeq(ns))
    decreases |ns|
  {
    if ns != [] {
      var init := ns[..|ns| - 1];
      assert VisNodes(ns, edges)[..|ns| - 1] == VisNodes(init, edges);
      assert IdSeq(ns)[..|ns| - 1] == IdSeq(init);
      TotalDegreeIs(init, edges);
    }
  }

  lemma IdSeqDistinct(ns: seq<DP.Node>)
    requires NodeIdsDistinct(ns)
    ensures Distinct(IdSeq(ns))
  {
  }

  /** When the master nodes have distinct ids, the degrees of the shown nodes add
      up to twice the number of shown edges. */
  lemma ShownDegreeSum(selected: string, nodes: seq<DP.Node>, edges: seq<DP.Edge>, ms: seq<DP.Movie>)
    requires NodeIdsDistinct(nodes)
    ensures TotalDegree(VisNodes(CurrentNodes(selected, nodes, ms), CurrentEdges(selected, nodes, edges, ms))) ==
      2 * |CurrentEdges(selected, nodes, edges, ms)|
  {
    var cur := CurrentNodes(selected, nodes, ms);
    var es := CurrentEdges(selected, nodes, edges, ms);
    if Chosen(selected) && FindMovie(ms, selected).Some? {
      FilterNodesDistinct(nodes, selected);
    }
    IdSeqDistinct(cur);
    forall k | 0 <= k < |es| ensures es[k].from in IdSeq(cur) && es[k].to in IdSeq(cur) {
      assert IsNodeId(cur, es[k].from) && IsNodeId(cur, es[k].to);
      var a :| 0 <= a < |cur| && cur[a].id == es[k].from;
      var b :| 0 <= b < |cur| && cur[b].id == es[k].to;
      assert IdSeq(cur)[a] == es[k].from && IdSeq(cur)[b] == es[k].to;
    }
    DegreeSum(es, IdSeq(cur));
    TotalDegreeIs(cur, es);
  }

  /** With distinct master ids, the shown helper edges are distinct, one for each
      pair of shown nodes in one group taken in list order. */
  lemma ShownHelperEdges(selected: string, nodes: seq<DP.Node>, edges: seq<DP.Edge>, ms: seq<DP.Movie>)
    requires NodeIdsDistinct(nodes)
    ensures Distinct(HelperEdgesOf(VisNodes(CurrentNodes(selected, nodes, ms), CurrentEdges(selected, nodes, edges, ms))))
  {
    var cur := CurrentNodes(selected, nodes, ms);
    var vs := VisNodes(cur, CurrentEdges(selected, nodes, edges, ms));
    if Chosen(selected) && FindMovie(ms, selected).Some? {
      FilterNodesDistinct(nodes, selected);
    }
    assert UniqueIds(vs) by {
      forall p, q | 0 <= p < q < |vs| ensures vs[p].id != vs[q].id {
        assert vs[p].id == cur[p].id && vs[q].id == cur[q].id;
      }
    }
    HelperEdgesDistinct(vs);
  }

  /** A title offered by the movie selector always finds its movie, so picking it
      never shows the "Plot data missing" message. */
  lemma SelectorTitleFound(ms: seq<DP.Movie>, t: string)
    requires Some(t) in DP.SelectorTitles(ms) && Chosen(t)
    ensures FindMovie(ms, t).Some?
    ensures PlotPanelFor(t, ms) == PlotPanel(FindMovie(ms, t).value.plot, FormatPlot(FindMovie(ms, t).value.plot))
  {
    DP.SelectorTitlesFacts(ms);
    var i :| 0 <= i < |ms| && ms[i].title == Some(t);
  }

  /** A movie without a title gives the selector an option whose value is the text
      "undefined". Picking it finds no movie, unless one is titled that text, so the
      panel shows the "Plot data missing" message with that title and no node. */
  lemma AbsentTitleMissing(ms: seq<DP.Movie>, nodes: seq<DP.Node>)
    requires forall k :: 0 <= k < |ms| ==> ms[k].title != Some("undefined")
    ensures PlotPanelFor("undefined", ms) == PlotPanel("", MissingPanel("undefined"))
    ensures CurrentNodes("undefined", nodes, ms) == []
  {
    assert Chosen("undefined");
  }

  /** The panel shows a found movie's plot exactly, as safe markup; any other
      outcome clears the raw plot. */
  lemma PlotPanelShows(selected: string, ms: seq<DP.Movie>)
    ensures PlotPanelFor(selected, ms).raw != "" ==>
      Chosen(selected) && FindMovie(ms, selected).Some? &&
      PlotPanelFor(selected, ms).raw == FindMovie(ms, selected).value.plot &&
      Text(PlotPanelFor(selected, ms).html) == PlotPanelFor(selected, ms).raw &&
      WellFormed(PlotPanelFor(selected, ms).html, {LineBreak})
    ensures PlotPanelFor(selected, ms).raw == "" ==>
      PlotPanelFor(selected, ms).html in {PlotNotAvailable, MissingPanel(selected), NoMoviesPanel, SelectPanel}
  {
    var panel := PlotPanelFor(selected, ms);
    if panel.raw != "" {
      FormatPlotShows(panel.raw);
    }
  }
}
