/**
 * The statement-level trigger that runs after treenodes are deleted. It
 * joins the deleted nodes to their edge rows, groups them by skeleton and
 * project, subtracts each group from the summary row with that skeleton and
 * project, and removes the deleted nodes' edge rows. It never creates a
 * summary row and never changes a time column.
 */
module DeleteTrigger {
  import opened Common
  import opened SummaryRows
  import opened InsertTrigger

  /** The rows `skeleton_data` aggregates: each deleted node that has an
      edge row, with that edge's length. */
  function DeleteFacts(deleted: seq<Treenode>, edges: map<int, EdgeRow>): (facts: seq<EdgeFact>)
    ensures |facts| <= |deleted|
  {
    if deleted == [] then []
    else
      var t := deleted[0];
      var rest := DeleteFacts(deleted[1..], edges);
      if t.id in edges then [EdgeFact(t.skeletonId, t.projectId, 1, edges[t.id].length, t.creationTime, t.editionTime)] + rest
      else rest
  }

  /** The facts of project `p`, in order. */
  function OfProject(facts: seq<EdgeFact>, p: int): (r: seq<EdgeFact>)
    ensures |r| <= |facts|
    ensures forall i :: 0 <= i < |r| ==> r[i] in facts && r[i].projectId == p
  {
    if facts == [] then []
    else
      var rest := OfProject(facts[1..], p);
      assert forall f :: f in facts[1..] ==> f in facts;
      if facts[0].projectId == p then [facts[0]] + rest else rest
  }

  /** `UPDATE catmaid_skeleton_summary ... FROM skeleton_data`: a row is
      changed only by the group with its skeleton and its project, which
      subtracts its node count and length. */
  function SummaryAfterDelete(summary: map<int, SummaryRow>, facts: seq<EdgeFact>): (r: map<int, SummaryRow>)
    ensures r.Keys == summary.Keys
    ensures forall sk :: sk in summary ==>
      && r[sk].projectId == summary[sk].projectId
      && r[sk].lastSummaryUpdate == summary[sk].lastSummaryUpdate
      && r[sk].originalCreationTime == summary[sk].originalCreationTime
      && r[sk].lastEditionTime == summary[sk].lastEditionTime
  {
    map sk | sk in summary :: DeletedRow(summary[sk], facts, sk)
  }

  /** One summary row after `UPDATE ... FROM skeleton_data`. */
  function DeletedRow(row: SummaryRow, facts: seq<EdgeFact>, sk: int): (r: SummaryRow)
    ensures r.numNodes == row.numNodes - NodeSum(OfProject(facts, row.projectId), sk)
    ensures r.cableLength == row.cableLength - LengthSum(OfProject(facts, row.projectId), sk)
    ensures r.(numNodes := row.numNodes, cableLength := row.cableLength) == row
  {
    var mine := OfProject(facts, row.projectId);
    if sk in SkeletonsOf(mine) then
      row.(numNodes := row.numNodes - NodeSum(mine, sk), cableLength := row.cableLength - LengthSum(mine, sk))
    else
      SumsOfOtherSkeletons(mine, sk);
      row
  }

  /** A deleted node removes the edge row with its id and its project. */
  predicate RemovesEdge(deleted: seq<Treenode>, id: int, e: EdgeRow)
  {
    exists i :: 0 <= i < |deleted| && deleted[i].id == id && deleted[i].projectId == e.projectId
  }

  /** `DELETE FROM treenode_edge e USING deleted_treenode t`. */
  function EdgesAfterDelete(edges: map<int, EdgeRow>, deleted: seq<Treenode>): (e: map<int, EdgeRow>)
    ensures forall id :: id in e <==> id in edges && !RemovesEdge(deleted, id, edges[id])
    ensures forall id :: id in e ==> e[id] == edges[id]
  {
    map id | id in edges && !RemovesEdge(deleted, id, edges[id]) :: edges[id]
  }

  /** Every fact about skeleton `sk` names project `p`. */
  predicate GroupInProject(facts: seq<EdgeFact>, sk: int, p: int)
  {
    forall i :: 0 <= i < |facts| && facts[i].skeletonId == sk ==> facts[i].projectId == p
  }

  /** When every fact about `sk` is in project `p`, keeping only the facts
      of `p` changes neither the group's presence nor its sums. */
  lemma {:induction false} KeepProjectSums(facts: seq<EdgeFact>, sk: int, p: int)
    requires GroupInProject(facts, sk, p)
    ensures NodeSum(OfProject(facts, p), sk) == NodeSum(facts, sk)
    ensures LengthSum(OfProject(facts, p), sk) == LengthSum(facts, sk)
  {
    if facts != [] {
      var rest := facts[1..];
      assert GroupInProject(rest, sk, p) by {
        forall i | 0 <= i < |rest| && rest[i].skeletonId == sk ensures rest[i].projectId == p {
          assert rest[i] == facts[i + 1];
        }
      }
      KeepProjectSums(rest, sk, p);
      if facts[0].projectId == p {
        assert OfProject(facts, p)[1..] == OfProject(rest, p);
      }
    } else {
      assert OfProject(facts, p) == [];
    }
  }

  /** The same condition keeps the group present. */
  lemma KeepProjectGroup(facts: seq<EdgeFact>, sk: int, p: int)
    requires GroupInProject(facts, sk, p)
    ensures sk in SkeletonsOf(OfProject(facts, p)) <==> sk in SkeletonsOf(facts)
  {
    var kept := OfProject(facts, p);
    if sk in SkeletonsOf(facts) {
      var k :| 0 <= k < |facts| && facts[k].skeletonId == sk;
      KeepProjectMember(facts, p, k);
    }
    if sk in SkeletonsOf(kept) {
      var j :| 0 <= j < |kept| && kept[j].skeletonId == sk;
      assert kept[j] in facts;
    }
  }

  lemma {:induction false} KeepProjectMember(facts: seq<EdgeFact>, p: int, k: nat)
    requires k < |facts| && facts[k].projectId == p
    ensures facts[k] in OfProject(facts, p)
  {
    if k > 0 {
      assert facts[1..][k - 1] == facts[k];
      KeepProjectMember(facts[1..], p, k - 1);
    }
  }

  /** A deleted batch whose nodes all have edge rows and share the project
      of their skeleton's row: the row loses exactly their count and the
      lengths of their edges. */
  lemma DeleteSubtracts(summary: map<int, SummaryRow>, edges: map<int, EdgeRow>, deleted: seq<Treenode>, sk: int)
    requires sk in summary
    requires forall i :: 0 <= i < |deleted| && deleted[i].skeletonId == sk ==>
      deleted[i].id in edges && deleted[i].projectId == summary[sk].projectId
    ensures var r := SummaryAfterDelete(summary, DeleteFacts(deleted, edges))[sk];
      && r.numNodes == summary[sk].numNodes - CountNodes(deleted, sk)
      && r.cableLength == summary[sk].cableLength - DeletedLength(deleted, edges, sk)
  {
    var facts := DeleteFacts(deleted, edges);
    var p := summary[sk].projectId;
    DeleteFactSums(deleted, edges, sk, p);
    KeepProjectSums(facts, sk, p);
    KeepProjectGroup(facts, sk, p);
    if sk !in SkeletonsOf(facts) {
      SumsOfOtherSkeletons(facts, sk);
    }
  }

  /** The total length of the edge rows of the deleted nodes of `sk`. */
  function DeletedLength(deleted: seq<Treenode>, edges: map<int, EdgeRow>, sk: int): real
  {
    if deleted == [] then 0.0
    else
      (if deleted[0].skeletonId == sk && deleted[0].id in edges then edges[deleted[0].id].length else 0.0) +
      DeletedLength(deleted[1..], edges, sk)
  }

  /** The group of `sk` counts the deleted nodes of `sk` that have edge rows,
      and all of them carry their own project. */
  lemma {:induction false} DeleteFactSums(deleted: seq<Treenode>, edges: map<int, EdgeRow>, sk: int, p: int)
    requires forall i :: 0 <= i < |deleted| && deleted[i].skeletonId == sk ==>
      deleted[i].id in edges && deleted[i].projectId == p
    ensures NodeSum(DeleteFacts(deleted, edges), sk) == CountNodes(deleted, sk)
    ensures LengthSum(DeleteFacts(deleted, edges), sk) == DeletedLength(deleted, edges, sk)
    ensures GroupInProject(DeleteFacts(deleted, edges), sk, p)
  {
    if deleted != [] {
      var rest := deleted[1..];
      forall i | 0 <= i < |rest| && rest[i].skeletonId == sk ensures rest[i].id in edges && rest[i].projectId == p {
        assert rest[i] == deleted[i + 1];
      }
      DeleteFactSums(rest, edges, sk, p);
      var facts := DeleteFacts(deleted, edges);
      var restFacts := DeleteFacts(rest, edges);
      if deleted[0].id in edges {
        assert facts[1..] == restFacts;
        forall i | 0 <= i < |facts| && facts[i].skeletonId == sk ensures facts[i].projectId == p {
          if i > 0 {
            assert facts[i] == restFacts[i - 1];
          }
        }
      }
    } else {
      assert DeleteFacts(deleted, edges) == [];
    }
  }

  /** When every node of the batch has its insert edge row, the delete
      aggregates exactly the rows the insert aggregated. */
  lemma {:induction false} DeleteFactsOfInserted(tree: seq<Treenode>, batch: seq<Treenode>, edges: map<int, EdgeRow>, dist: Metric)
    requires forall i :: 0 <= i < |batch| ==> EdgeEnd(tree, batch[i]).Some?
    requires forall i :: 0 <= i < |batch| ==>
      batch[i].id in edges && edges[batch[i].id] == EdgeRow(batch[i].projectId, EdgeLength(tree, batch[i], dist))
    ensures DeleteFacts(batch, edges) == InsertFacts(tree, batch, dist)
  {
    if batch != [] {
      var rest := batch[1..];
      forall i | 0 <= i < |rest| ensures EdgeEnd(tree, rest[i]).Some? &&
        rest[i].id in edges && edges[rest[i].id] == EdgeRow(rest[i].projectId, EdgeLength(tree, rest[i], dist))
      {
        assert rest[i] == batch[i + 1];
      }
      DeleteFactsOfInserted(tree, rest, edges, dist);
    }
  }

  /** The inserted facts of a skeleton whose nodes are all in project `p`
      are all in `p`. */
  lemma InsertedGroupInProject(tree: seq<Treenode>, batch: seq<Treenode>, dist: Metric, sk: int, p: int)
    requires forall i :: 0 <= i < |batch| && batch[i].skeletonId == sk ==> batch[i].projectId == p
    ensures GroupInProject(InsertFacts(tree, batch, dist), sk, p)
  {
    var facts := InsertFacts(tree, batch, dist);
    forall k | 0 <= k < |facts| && facts[k].skeletonId == sk ensures facts[k].projectId == p {
      var i := FactSource(tree, batch, dist, k);
    }
  }

  /** Deleting a group that was added on top of `n` nodes and `len` cable
      brings the row back to them. */
  lemma DeleteUndoesGroup(s1: map<int, SummaryRow>, facts: seq<EdgeFact>, sk: int, n: int, len: real)
    requires sk in s1 && GroupInProject(facts, sk, s1[sk].projectId)
    requires s1[sk].numNodes == n + NodeSum(facts, sk) && s1[sk].cableLength == len + LengthSum(facts, sk)
    ensures SummaryAfterDelete(s1, facts)[sk].numNodes == n
    ensures SummaryAfterDelete(s1, facts)[sk].cableLength == len
  {
    var p := s1[sk].projectId;
    KeepProjectSums(facts, sk, p);
    KeepProjectGroup(facts, sk, p);
    if sk !in SkeletonsOf(facts) {
      SumsOfOtherSkeletons(facts, sk);
    }
  }

  /** Inserting a batch of new nodes and then deleting the same batch gives
      every skeleton that had a row its node count and cable length back,
      and leaves a row created by the insert at zero nodes and zero cable. */
  lemma InsertThenDeleteRestoresRows(summary: map<int, SummaryRow>, edges: map<int, EdgeRow>, tree: seq<Treenode>,
                                     batch: seq<Treenode>, now: int, dist: Metric, sk: int)
    requires DistinctIds(batch)
    requires forall i :: 0 <= i < |batch| ==> EdgeEnd(tree, batch[i]).Some? && batch[i].id !in edges
    requires ConsistentProjects(InsertFacts(tree, batch, dist))
    requires sk in summary ==> forall i :: 0 <= i < |batch| && batch[i].skeletonId == sk ==> batch[i].projectId == summary[sk].projectId
    ensures var s1 := SummaryAfterInsert(summary, tree, batch, now, dist);
      var s2 := SummaryAfterDelete(s1, DeleteFacts(batch, EdgesAfterInsert(edges, tree, batch, dist)));
      && s2.Keys == s1.Keys
      && (sk in summary ==> s2[sk].numNodes == summary[sk].numNodes && s2[sk].cableLength == summary[sk].cableLength)
      && (sk in s1 && sk !in summary ==> s2[sk].numNodes == 0 && s2[sk].cableLength == 0.0)
  {
    var facts := InsertFacts(tree, batch, dist);
    var e1 := EdgesAfterInsert(edges, tree, batch, dist);
    NewEdgeRowsStore(tree, batch, dist);
    DeleteFactsOfInserted(tree, batch, e1, dist);
    assert DeleteFacts(batch, e1) == facts;
    if sk in summary {
      InsertedGroupInProject(tree, batch, dist, sk, summary[sk].projectId);
      DeleteUndoesExistingRow(summary, facts, now, sk);
    } else if sk in SkeletonsOf(facts) {
      DeleteZeroesNewRow(summary, facts, now, sk);
    }
  }

  /** Upserting a group into an existing row of its project and then
      subtracting it gives the row its count and cable back. */
  lemma DeleteUndoesExistingRow(summary: map<int, SummaryRow>, facts: seq<EdgeFact>, now: int, sk: int)
    requires ConsistentProjects(facts) && sk in summary
    requires GroupInProject(facts, sk, summary[sk].projectId)
    ensures var s2 := SummaryAfterDelete(Upsert(summary, facts, InsertRule, now), facts);
      s2[sk].numNodes == summary[sk].numNodes && s2[sk].cableLength == summary[sk].cableLength
  {
    var s1 := Upsert(summary, facts, InsertRule, now);
    var before := summary[sk];
    if sk in SkeletonsOf(facts) {
      assert s1[sk] == Merge(InsertRule, Some(before), DeltaOf(facts, sk), now);
    } else {
      SumsOfOtherSkeletons(facts, sk);
    }
    DeleteUndoesGroup(s1, facts, sk, before.numNodes, before.cableLength);
  }

  /** A row the upsert created is brought to zero nodes and zero cable by
      subtracting the same group. */
  lemma DeleteZeroesNewRow(summary: map<int, SummaryRow>, facts: seq<EdgeFact>, now: int, sk: int)
    requires ConsistentProjects(facts) && sk !in summary && sk in SkeletonsOf(facts)
    ensures var s2 := SummaryAfterDelete(Upsert(summary, facts, InsertRule, now), facts);
      s2[sk].numNodes == 0 && s2[sk].cableLength == 0.0
  {
    var s1 := Upsert(summary, facts, InsertRule, now);
    assert s1[sk] == Merge(InsertRule, None, DeltaOf(facts, sk), now);
    assert GroupInProject(facts, sk, s1[sk].projectId) by {
      var k0 :| 0 <= k0 < |facts| && facts[k0].skeletonId == sk && facts[k0].projectId == GroupProject(facts, sk);
    }
    DeleteUndoesGroup(s1, facts, sk, 0, 0.0);
  }

  /** Deleting the batch removes exactly the edge rows its insert added. */
  lemma InsertThenDeleteRestoresEdges(edges: map<int, EdgeRow>, tree: seq<Treenode>, batch: seq<Treenode>, dist: Metric)
    requires DistinctIds(batch)
    requires forall i :: 0 <= i < |batch| ==> EdgeEnd(tree, batch[i]).Some? && batch[i].id !in edges
    ensures EdgesAfterDelete(EdgesAfterInsert(edges, tree, batch, dist), batch) == edges
  {
    var e1 := EdgesAfterInsert(edges, tree, batch, dist);
    var e2 := EdgesAfterDelete(e1, batch);
    NewEdgeRowsStore(tree, batch, dist);
    forall id | id in edges ensures id in e2 {
      assert !RemovesEdge(batch, id, e1[id]);
    }
    forall id | id in e1 && id !in edges ensures RemovesEdge(batch, id, e1[id]) {
      var i :| 0 <= i < |batch| && batch[i].id == id;
    }
  }
}
