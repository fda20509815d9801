/**
 * The data migration that fills the summary table from the existing
 * treenodes. Per skeleton it counts all nodes, sums the lengths of the
 * child-to-parent edges, and takes the earliest creation time and the
 * latest edition time. Its inner join with the edge sum drops every
 * skeleton that has no child-to-parent edge, so a skeleton made of a single
 * root gets no row, although the insert trigger would have given it one.
 */
module InitialFill {
  import opened Common
  import opened SummaryRows
  import opened InsertTrigger

  /** The join `t1.parent_id = t2.id` of the `len` subquery. */
  predicate HasParentEdge(tree: seq<Treenode>, t: Treenode)
  {
    t.parentId.Some? && FindNode(tree, t.parentId.value).Some?
  }

  /** The length `len` sums for one node: its edge to its parent, nothing
      for a root or a node whose parent row is missing. */
  function ChildParentLength(tree: seq<Treenode>, t: Treenode, dist: Metric): real
  {
    if HasParentEdge(tree, t) then dist(t.location, FindNode(tree, t.parentId.value).value.location) else 0.0
  }

  /** The skeletons the `len` subquery has a row for. */
  function SkeletonsWithEdge(tree: seq<Treenode>): (ks: set<int>)
    ensures forall sk :: sk in ks <==> exists i :: 0 <= i < |tree| && tree[i].skeletonId == sk && HasParentEdge(tree, tree[i])
  {
    set i | 0 <= i < |tree| && HasParentEdge(tree, tree[i]) :: tree[i].skeletonId
  }

  /** One aggregated row per node of `nodes`, as the `counter`, `len`,
      `creation` and `edit` subqueries see it. */
  function NodeFacts(tree: seq<Treenode>, nodes: seq<Treenode>, dist: Metric): (facts: seq<EdgeFact>)
    ensures |facts| == |nodes|
    ensures forall k :: 0 <= k < |nodes| ==>
      facts[k] == EdgeFact(nodes[k].skeletonId, nodes[k].projectId, 1, ChildParentLength(tree, nodes[k], dist),
                           nodes[k].creationTime, nodes[k].editionTime)
  {
    if nodes == [] then []
    else
      var t := nodes[0];
      [EdgeFact(t.skeletonId, t.projectId, 1, ChildParentLength(tree, t, dist), t.creationTime, t.editionTime)] +
      NodeFacts(tree, nodes[1..], dist)
  }

  /** Every skeleton with a child-to-parent edge has rows in `NodeFacts`. */
  lemma EdgeSkeletonsHaveFacts(tree: seq<Treenode>, dist: Metric)
    ensures forall sk :: sk in SkeletonsWithEdge(tree) ==> sk in SkeletonsOf(NodeFacts(tree, tree, dist))
  {
    var facts := NodeFacts(tree, tree, dist);
    forall sk | sk in SkeletonsWithEdge(tree) ensures sk in SkeletonsOf(facts) {
      var i :| 0 <= i < |tree| && tree[i].skeletonId == sk && HasParentEdge(tree, tree[i]);
      assert facts[i].skeletonId == sk;
    }
  }

  /** The row the migration inserts for skeleton `sk`. */
  function FillRow(facts: seq<EdgeFact>, sk: int, now: int): SummaryRow
    requires sk in SkeletonsOf(facts)
  {
    SummaryRow(GroupProject(facts, sk), now, Earliest(facts, sk), Latest(facts, sk), NodeSum(facts, sk), LengthSum(facts, sk))
  }

  /** The rows the migration inserts: for each skeleton with a child-to-parent
      edge, its node count, cable length, earliest creation and latest
      edition time, the project of its nodes, and the migration's time. */
  function InitialRows(tree: seq<Treenode>, now: int, dist: Metric): (rows: map<int, SummaryRow>)
    requires ConsistentProjects(NodeFacts(tree, tree, dist))
    ensures rows.Keys == SkeletonsWithEdge(tree)
  {
    EdgeSkeletonsHaveFacts(tree, dist);
    map sk | sk in SkeletonsWithEdge(tree) :: FillRow(NodeFacts(tree, tree, dist), sk, now)
  }

  /** The sum of the child-to-parent edge lengths of skeleton `sk`. */
  function CableOf(tree: seq<Treenode>, nodes: seq<Treenode>, sk: int, dist: Metric): real
  {
    if nodes == [] then 0.0
    else (if nodes[0].skeletonId == sk then ChildParentLength(tree, nodes[0], dist) else 0.0) + CableOf(tree, nodes[1..], sk, dist)
  }

  /** `counter` counts every node of the skeleton, roots included, and
      `len` sums the child-to-parent edges. */
  lemma {:induction false} NodeFactSums(tree: seq<Treenode>, nodes: seq<Treenode>, sk: int, dist: Metric)
    ensures NodeSum(NodeFacts(tree, nodes, dist), sk) == CountNodes(nodes, sk)
    ensures LengthSum(NodeFacts(tree, nodes, dist), sk) == CableOf(tree, nodes, sk, dist)
  {
    if nodes != [] {
      NodeFactSums(tree, nodes[1..], sk, dist);
      assert NodeFacts(tree, nodes, dist)[1..] == NodeFacts(tree, nodes[1..], dist);
    } else {
      assert NodeFacts(tree, nodes, dist) == [];
    }
  }

  /** A filled row counts all nodes of its skeleton, sums its
      child-to-parent edges, and carries the earliest creation and latest
      edition time among its nodes. */
  lemma InitialRowContents(tree: seq<Treenode>, now: int, dist: Metric, sk: int)
    requires ConsistentProjects(NodeFacts(tree, tree, dist))
    requires sk in SkeletonsWithEdge(tree)
    ensures var r := InitialRows(tree, now, dist)[sk];
      && r.numNodes == CountNodes(tree, sk)
      && r.cableLength == CableOf(tree, tree, sk, dist)
      && r.lastSummaryUpdate == now
      && (forall i :: 0 <= i < |tree| && tree[i].skeletonId == sk ==>
            r.originalCreationTime <= tree[i].creationTime && tree[i].editionTime <= r.lastEditionTime)
      && (exists i :: 0 <= i < |tree| && tree[i].skeletonId == sk && r.originalCreationTime == tree[i].creationTime)
      && (exists i :: 0 <= i < |tree| && tree[i].skeletonId == sk && r.lastEditionTime == tree[i].editionTime)
      && (exists i :: 0 <= i < |tree| && tree[i].skeletonId == sk && r.projectId == tree[i].projectId)
  {
    var facts := NodeFacts(tree, tree, dist);
    EdgeSkeletonsHaveFacts(tree, dist);
    assert InitialRows(tree, now, dist)[sk] == FillRow(facts, sk, now);
    NodeFactSums(tree, tree, sk, dist);
    NodeFactBounds(tree, dist, sk);
  }

  /** The time bounds and project of a skeleton's `NodeFacts` come from its
      nodes. */
  lemma NodeFactBounds(tree: seq<Treenode>, dist: Metric, sk: int)
    requires sk in SkeletonsOf(NodeFacts(tree, tree, dist))
    ensures var facts := NodeFacts(tree, tree, dist);
      && (forall i :: 0 <= i < |tree| && tree[i].skeletonId == sk ==>
            Earliest(facts, sk) <= tree[i].creationTime && tree[i].editionTime <= Latest(facts, sk))
      && (exists i :: 0 <= i < |tree| && tree[i].skeletonId == sk && Earliest(facts, sk) == tree[i].creationTime)
      && (exists i :: 0 <= i < |tree| && tree[i].skeletonId == sk && Latest(facts, sk) == tree[i].editionTime)
      && (exists i :: 0 <= i < |tree| && tree[i].skeletonId == sk && GroupProject(facts, sk) == tree[i].projectId)
  {
    var facts := NodeFacts(tree, tree, dist);
    forall i | 0 <= i < |tree| && tree[i].skeletonId == sk
      ensures Earliest(facts, sk) <= tree[i].creationTime && tree[i].editionTime <= Latest(facts, sk)
    {
      assert facts[i].skeletonId == sk;
    }
    var k1 :| 0 <= k1 < |facts| && facts[k1].skeletonId == sk && facts[k1].creationTime == Earliest(facts, sk);
    var k2 :| 0 <= k2 < |facts| && facts[k2].skeletonId == sk && facts[k2].editionTime == Latest(facts, sk);
    var k3 :| 0 <= k3 < |facts| && facts[k3].skeletonId == sk && facts[k3].projectId == GroupProject(facts, sk);
    assert tree[k1].skeletonId == sk && tree[k2].skeletonId == sk && tree[k3].skeletonId == sk;
  }

  /** A table holding a single root: the fill gives its skeleton no row,
      while inserting the same root through the insert trigger creates one
      counting one node. */
  lemma LoneRootHasNoRow(root: Treenode, now: int, dist: Metric)
    requires root.parentId.None?
    ensures InitialRows([root], now, dist) == map[]
    ensures root.skeletonId in SummaryAfterInsert(map[], [root], [root], now, dist)
    ensures SummaryAfterInsert(map[], [root], [root], now, dist)[root.skeletonId].numNodes == 1
  {
    var tree := [root];
    assert SkeletonsWithEdge(tree) == {};
    assert [root][1..] == [];
    assert EdgeEnd(tree, root) == Some(root);
    var facts := InsertFacts(tree, tree, dist);
    assert facts == [InsertFact(root, root, dist)];
    assert facts[1..] == [];
    assert root.skeletonId in SkeletonsOf(facts) by {
      assert facts[0].skeletonId == root.skeletonId;
    }
    assert NodeSum(facts, root.skeletonId) == 1 + NodeSum(facts[1..], root.skeletonId);
    assert SummaryAfterInsert(map[], tree, tree, now, dist)[root.skeletonId] ==
      Merge(InsertRule, None, DeltaOf(facts, root.skeletonId), now);
  }

  /** Every parent id names a row of the table (the treenode table's
      foreign key). */
  predicate ParentsPresent(tree: seq<Treenode>)
  {
    forall i :: 0 <= i < |tree| && tree[i].parentId.Some? ==> FindNode(tree, tree[i].parentId.value).Some?
  }

  /** Over a table whose parents are all present, the fill's rows are the
      insert trigger's rows for the same nodes. */
  lemma {:induction false} NodeFactsAreInsertFacts(tree: seq<Treenode>, nodes: seq<Treenode>, dist: Metric)
    requires IsLength(dist) && DistinctIds(tree) && ParentsPresent(tree)
    requires forall i :: 0 <= i < |nodes| ==> nodes[i] in tree
    ensures NodeFacts(tree, nodes, dist) == InsertFacts(tree, nodes, dist)
  {
    if nodes != [] {
      var t := nodes[0];
      var j :| 0 <= j < |tree| && tree[j] == t;
      if t.parentId.None? {
        assert EdgeEnd(tree, t) == Some(t);
        assert dist(t.location, t.location) == 0.0;
      } else {
        assert FindNode(tree, t.parentId.value).Some?;
      }
      forall i | 0 <= i < |nodes[1..]| ensures nodes[1..][i] in tree {
        assert nodes[1..][i] == nodes[i + 1];
      }
      NodeFactsAreInsertFacts(tree, nodes[1..], dist);
    }
  }

  /** The fill and the insert trigger agree on every skeleton the fill
      covers: inserting the whole table into an empty summary yields the
      same rows for them. */
  lemma InitialFillAgreesWithInsert(tree: seq<Treenode>, now: int, dist: Metric, sk: int)
    requires IsLength(dist) && DistinctIds(tree) && ParentsPresent(tree)
    requires ConsistentProjects(NodeFacts(tree, tree, dist))
    requires sk in SkeletonsWithEdge(tree)
    ensures NodeFacts(tree, tree, dist) == InsertFacts(tree, tree, dist)
    ensures sk in SummaryAfterInsert(map[], tree, tree, now, dist)
    ensures InitialRows(tree, now, dist)[sk] == SummaryAfterInsert(map[], tree, tree, now, dist)[sk]
  {
    forall i | 0 <= i < |tree| ensures tree[i] in tree {
    }
    NodeFactsAreInsertFacts(tree, tree, dist);
    var facts := NodeFacts(tree, tree, dist);
    var i :| 0 <= i < |tree| && tree[i].skeletonId == sk && HasParentEdge(tree, tree[i]);
    assert facts[i].skeletonId == sk;
    assert SummaryAfterInsert(map[], tree, tree, now, dist)[sk] == Merge(InsertRule, None, DeltaOf(facts, sk), now);
  }
}
