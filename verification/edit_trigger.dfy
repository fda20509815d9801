/**
 * The statement-level trigger that runs after treenodes are updated. It
 * collects the edges that changed: those of nodes whose parent, location
 * or skeleton changed, and those of the children of updated nodes that were
 * not updated themselves. It removes each old edge from its old skeleton
 * (count -1, length negated), adds each new edge to its new skeleton, and
 * upserts the per-skeleton sums, then stores the new edge lengths. Unlike
 * the insert trigger, its conflict rule leaves the original creation time
 * alone.
 */
module EditTrigger {
  import opened Common
  import opened SummaryRows

  /** A row of the statement's transition tables: a node before and after
      the update (the join `t.id = ot.id`). */
  datatype NodeUpdate = NodeUpdate(before: Treenode, after: Treenode)

  /** The WHERE clause of `updated_parent_edge_data`: the parent is distinct
      from before, or a coordinate or the skeleton differs. */
  predicate EdgeChanged(u: NodeUpdate)
  {
    u.before.parentId != u.after.parentId || u.before.location != u.after.location ||
    u.before.skeletonId != u.after.skeletonId
  }

  /** A row of `updated_edge_data`: the node's current values and new edge
      length, with the skeleton and times its old edge was counted under. */
  datatype EdgeUpdate = EdgeUpdate(
    id: int, projectId: int, skeletonId: int, creationTime: int, editionTime: int,
    length: real, oldEditionTime: int, oldCreationTime: int, oldSkeletonId: int)

  /** The new row of the updated node with the given id. */
  function FindUpdated(updates: seq<NodeUpdate>, id: int): (r: Option<Treenode>)
    ensures r.Some? ==> r.value.id == id && exists i :: 0 <= i < |updates| && updates[i].after == r.value
    ensures r.None? <==> forall i :: 0 <= i < |updates| ==> updates[i].after.id != id
  {
    if updates == [] then None
    else if updates[0].after.id == id then Some(updates[0].after)
    else
      var r := FindUpdated(updates[1..], id);
      assert forall i :: 1 <= i < |updates| ==> updates[1..][i - 1] == updates[i];
      r
  }

  /** `updated_parent_edge_data`: each updated node whose edge changed and
      whose edge end is in the table. */
  function ParentRows(tree: seq<Treenode>, updates: seq<NodeUpdate>, dist: Metric): (rows: seq<EdgeUpdate>)
    ensures forall k :: 0 <= k < |rows| ==> exists i :: 0 <= i < |updates| && updates[i].after.id == rows[k].id
  {
    if updates == [] then []
    else
      var u := updates[0];
      var rest := ParentRows(tree, updates[1..], dist);
      assert forall i :: 1 <= i < |updates| ==> updates[1..][i - 1] == updates[i];
      match EdgeEnd(tree, u.after)
      case Some(p) =>
        if EdgeChanged(u) then
          [EdgeUpdate(u.after.id, u.after.projectId, u.after.skeletonId, u.after.creationTime, u.after.editionTime,
                      dist(u.after.location, p.location),
                      u.before.editionTime, u.before.creationTime, u.before.skeletonId)] + rest
        else rest
      case None => rest
  }

  /** `updated_child_edge_data`: each node of the table whose parent was
      updated and which was not updated itself, with its edge to its
      parent's new location. Its old values are its current ones. */
  function ChildRows(tree: seq<Treenode>, updates: seq<NodeUpdate>, dist: Metric): (rows: seq<EdgeUpdate>)
    ensures forall k :: 0 <= k < |rows| ==> rows[k].oldSkeletonId == rows[k].skeletonId
    ensures forall k :: 0 <= k < |rows| ==> FindUpdated(updates, rows[k].id).None?
  {
    if tree == [] then []
    else
      var c := tree[0];
      var rest := ChildRows(tree[1..], updates, dist);
      if c.parentId.Some? && FindUpdated(updates, c.parentId.value).Some? && FindUpdated(updates, c.id).None? then
        var e := FindUpdated(updates, c.parentId.value).value;
        [EdgeUpdate(c.id, c.projectId, c.skeletonId, c.creationTime, c.editionTime,
                    dist(c.location, e.location), c.editionTime, c.creationTime, c.skeletonId)] + rest
      else rest
  }

  /** `updated_edge_data`: the changed nodes' rows followed by the children's. */
  function UpdatedEdges(tree: seq<Treenode>, updates: seq<NodeUpdate>, dist: Metric): (ued: seq<EdgeUpdate>)
    ensures forall k :: 0 <= k < |ued| && ued[k].oldSkeletonId != ued[k].skeletonId ==>
      FindUpdated(updates, ued[k].id).Some?
  {
    var p := ParentRows(tree, updates, dist);
    var c := ChildRows(tree, updates, dist);
    assert forall k :: |p| <= k < |p| + |c| ==> (p + c)[k] == c[k - |p|];
    assert forall k :: 0 <= k < |p| ==> (p + c)[k] == p[k];
    p + c
  }

  /** `f` takes the old edge of the changed edge `t` out of the skeleton
      and times `t` was counted under: one node less, and the stored length
      negated. */
  predicate ChargedToOldSkeleton(f: EdgeFact, t: EdgeUpdate, edges: map<int, EdgeRow>)
  {
    t.id in edges &&
    f == EdgeFact(t.oldSkeletonId, t.projectId, -1, -edges[t.id].length, t.oldCreationTime, t.oldEditionTime)
  }

  /** `old_edge` as it enters `old_skeleton_data`: each changed edge that
      has an edge row, removed from its old skeleton with its stored length. */
  function OldEdgeFacts(ued: seq<EdgeUpdate>, edges: map<int, EdgeRow>): (facts: seq<EdgeFact>)
    ensures |facts| <= |ued|
    ensures forall k :: 0 <= k < |facts| ==> facts[k].nodes == -1
    ensures forall k :: 0 <= k < |facts| ==> exists j :: 0 <= j < |ued| && ChargedToOldSkeleton(facts[k], ued[j], edges)
    ensures (forall k :: 0 <= k < |ued| ==> ued[k].id in edges) ==> |facts| == |ued|
  {
    if ued == [] then []
    else
      var t := ued[0];
      var rest := OldEdgeFacts(ued[1..], edges);
      assert forall k :: 0 <= k < |ued[1..]| ==> ued[1..][k] == ued[k + 1];
      if t.id in edges then
        [EdgeFact(t.oldSkeletonId, t.projectId, -1, -edges[t.id].length, t.oldCreationTime, t.oldEditionTime)] + rest
      else rest
  }

  /** The first branch of `new_edge`: each changed edge, added to its new
      skeleton with its new length. */
  function NewEdgeFacts(ued: seq<EdgeUpdate>): (facts: seq<EdgeFact>)
    ensures |facts| == |ued|
    ensures forall k :: 0 <= k < |ued| ==>
      facts[k] == EdgeFact(ued[k].skeletonId, ued[k].projectId, 1, ued[k].length, ued[k].creationTime, ued[k].editionTime)
  {
    if ued == [] then []
    else
      [EdgeFact(ued[0].skeletonId, ued[0].projectId, 1, ued[0].length, ued[0].creationTime, ued[0].editionTime)] +
      NewEdgeFacts(ued[1..])
  }

  function UpdatedIds(ued: seq<EdgeUpdate>): set<int>
  {
    set k | 0 <= k < |ued| :: ued[k].id
  }

  function OldEdgeIds(ued: seq<EdgeUpdate>, edges: map<int, EdgeRow>): set<int>
  {
    set k | 0 <= k < |ued| && ued[k].id in edges :: ued[k].id
  }

  /** The second branch of `new_edge`: each updated node that is not in
      `updated_edge_data` but has an `old_edge`, with that old edge. */
  function SecondBranchFacts(updates: seq<NodeUpdate>, ued: seq<EdgeUpdate>, edges: map<int, EdgeRow>): seq<EdgeFact>
  {
    if updates == [] then []
    else
      var nt := updates[0].after;
      var rest := SecondBranchFacts(updates[1..], ued, edges);
      if nt.id !in UpdatedIds(ued) && nt.id in OldEdgeIds(ued, edges) && nt.id in edges then
        [EdgeFact(nt.skeletonId, nt.projectId, 1, edges[nt.id].length, nt.creationTime, nt.editionTime)] + rest
      else rest
  }

  /** The rows `summary_update_delta` groups: the negated old edges, then
      both branches of `new_edge`. */
  function EditFacts(tree: seq<Treenode>, updates: seq<NodeUpdate>, edges: map<int, EdgeRow>, dist: Metric): (facts: seq<EdgeFact>)
    ensures facts == OldEdgeFacts(UpdatedEdges(tree, updates, dist), edges) + NewEdgeFacts(UpdatedEdges(tree, updates, dist))
  {
    var ued := UpdatedEdges(tree, updates, dist);
    SecondBranchEmpty(updates, ued, edges);
    assert OldEdgeFacts(ued, edges) + NewEdgeFacts(ued) + [] == OldEdgeFacts(ued, edges) + NewEdgeFacts(ued);
    OldEdgeFacts(ued, edges) + NewEdgeFacts(ued) + SecondBranchFacts(updates, ued, edges)
  }

  /** The summary table after the edit. */
  function SummaryAfterEdit(summary: map<int, SummaryRow>, tree: seq<Treenode>, updates: seq<NodeUpdate>,
                            edges: map<int, EdgeRow>, now: int, dist: Metric): (r: map<int, SummaryRow>)
    requires ConsistentProjects(EditFacts(tree, updates, edges, dist))
    ensures summary.Keys <= r.Keys
    ensures forall sk :: sk in summary ==>
      r[sk].projectId == summary[sk].projectId && r[sk].originalCreationTime == summary[sk].originalCreationTime
  {
    Upsert(summary, EditFacts(tree, updates, edges, dist), EditRule, now)
  }

  /** The new length of the changed edge with the given id: that of the
      first row with the id. */
  function NewLength(ued: seq<EdgeUpdate>, id: int): (r: real)
    requires id in UpdatedIds(ued)
    ensures exists k :: 0 <= k < |ued| && ued[k].id == id && r == ued[k].length
  {
    if ued[0].id == id then ued[0].length
    else
      assert id in UpdatedIds(ued[1..]) by {
        var k :| 0 <= k < |ued| && ued[k].id == id;
        assert ued[1..][k - 1] == ued[k];
      }
      var r := NewLength(ued[1..], id);
      assert forall k :: 0 <= k < |ued[1..]| ==> ued[1..][k] == ued[k + 1];
      r
  }

  /** No two changed edges have the same id. */
  predicate DistinctIds(ued: seq<EdgeUpdate>)
  {
    forall i, j :: 0 <= i < j < |ued| ==> ued[i].id != ued[j].id
  }

  /** The row at index `k`, when no earlier row has its id, gives the new
      length for that id. */
  lemma {:induction false} NewLengthIsRow(ued: seq<EdgeUpdate>, k: nat)
    requires k < |ued|
    requires forall j :: 0 <= j < k ==> ued[j].id != ued[k].id
    ensures ued[k].id in UpdatedIds(ued)
    ensures NewLength(ued, ued[k].id) == ued[k].length
  {
    var id := ued[k].id;
    if k > 0 {
      var rest := ued[1..];
      assert rest[k - 1] == ued[k];
      forall j | 0 <= j < k - 1 ensures rest[j].id != id {
        assert rest[j] == ued[j + 1];
      }
      NewLengthIsRow(rest, k - 1);
      assert ued[0].id != id;
    }
  }

  /** `updated_edge`: every stored edge of a changed edge takes its new
      length; no edge row is added or removed and its project is kept. */
  function EdgesAfterEdit(edges: map<int, EdgeRow>, ued: seq<EdgeUpdate>): (e: map<int, EdgeRow>)
    ensures e.Keys == edges.Keys
    ensures forall id :: id in e ==> e[id].projectId == edges[id].projectId
    ensures forall id :: id in e && id !in UpdatedIds(ued) ==> e[id] == edges[id]
  {
    map id | id in edges :: if id in UpdatedIds(ued) then edges[id].(length := NewLength(ued, id)) else edges[id]
  }

  /** `updated_edge` sets every stored edge of a changed edge to that
      edge's new length (`SET edge = ue.edge`). */
  lemma EdgesAfterEditStoresLength(edges: map<int, EdgeRow>, ued: seq<EdgeUpdate>, k: nat)
    requires DistinctIds(ued)
    requires k < |ued| && ued[k].id in edges
    ensures ued[k].id in EdgesAfterEdit(edges, ued)
    ensures EdgesAfterEdit(edges, ued)[ued[k].id] == edges[ued[k].id].(length := ued[k].length)
  {
    NewLengthIsRow(ued, k);
  }

  /** The second branch of `new_edge` never yields a row: `old_edge` only
      holds ids of `updated_edge_data`, and the branch requires ids outside
      it. */
  lemma {:induction false} SecondBranchEmpty(updates: seq<NodeUpdate>, ued: seq<EdgeUpdate>, edges: map<int, EdgeRow>)
    ensures SecondBranchFacts(updates, ued, edges) == []
  {
    if updates != [] {
      var nt := updates[0].after;
      if nt.id in OldEdgeIds(ued, edges) {
        var k :| 0 <= k < |ued| && ued[k].id in edges && ued[k].id == nt.id;
        assert nt.id in UpdatedIds(ued);
      }
      SecondBranchEmpty(updates[1..], ued, edges);
    }
  }

  /** Changed edges whose new skeleton is `sk` but whose old one was not. */
  function MovedInto(ued: seq<EdgeUpdate>, sk: int): nat
  {
    if ued == [] then 0
    else (if ued[0].skeletonId == sk && ued[0].oldSkeletonId != sk then 1 else 0) + MovedInto(ued[1..], sk)
  }

  /** Changed edges whose old skeleton is `sk` but whose new one is not. */
  function MovedOutOf(ued: seq<EdgeUpdate>, sk: int): nat
  {
    if ued == [] then 0
    else (if ued[0].oldSkeletonId == sk && ued[0].skeletonId != sk then 1 else 0) + MovedOutOf(ued[1..], sk)
  }

  /** Old and new side of the changed edges, when every one has an edge row:
      an edge that stays in its skeleton adds -1 and +1 there, so the
      skeleton's count changes by the edges moved in minus those moved out. */
  lemma {:induction false} OldNewNodeSum(ued: seq<EdgeUpdate>, edges: map<int, EdgeRow>, sk: int)
    requires forall k :: 0 <= k < |ued| ==> ued[k].id in edges
    ensures NodeSum(OldEdgeFacts(ued, edges), sk) + NodeSum(NewEdgeFacts(ued), sk) == MovedInto(ued, sk) - MovedOutOf(ued, sk)
  {
    if ued != [] {
      var rest := ued[1..];
      forall k | 0 <= k < |rest| ensures rest[k].id in edges {
        assert rest[k] == ued[k + 1];
      }
      OldNewNodeSum(rest, edges, sk);
      assert OldEdgeFacts(ued, edges)[1..] == OldEdgeFacts(rest, edges);
      assert NewEdgeFacts(ued)[1..] == NewEdgeFacts(rest);
    } else {
      assert OldEdgeFacts(ued, edges) == [] && NewEdgeFacts(ued) == [];
    }
  }

  /** An edit changes a skeleton's node count by the number of edges moved
      into it minus the number moved out of it; children of edited nodes,
      which keep their skeleton, cancel. */
  lemma EditNodeDelta(tree: seq<Treenode>, updates: seq<NodeUpdate>, edges: map<int, EdgeRow>, dist: Metric, sk: int)
    requires forall k :: 0 <= k < |UpdatedEdges(tree, updates, dist)| ==> UpdatedEdges(tree, updates, dist)[k].id in edges
    ensures NodeSum(EditFacts(tree, updates, edges, dist), sk) ==
      MovedInto(UpdatedEdges(tree, updates, dist), sk) - MovedOutOf(UpdatedEdges(tree, updates, dist), sk)
  {
    var ued := UpdatedEdges(tree, updates, dist);
    SecondBranchEmpty(updates, ued, edges);
    OldNewNodeSum(ued, edges, sk);
    var o, n := OldEdgeFacts(ued, edges), NewEdgeFacts(ued);
    NodeSumConcat(o, n, sk);
    assert o + n + [] == o + n;
  }

  /** No changed edge moves between skeletons. */
  predicate NoMoves(ued: seq<EdgeUpdate>)
  {
    forall k :: 0 <= k < |ued| ==> ued[k].oldSkeletonId == ued[k].skeletonId
  }

  lemma {:induction false} NoMovesNoneMoved(ued: seq<EdgeUpdate>, sk: int)
    requires NoMoves(ued)
    ensures MovedInto(ued, sk) == 0 && MovedOutOf(ued, sk) == 0
  {
    if ued != [] {
      assert NoMoves(ued[1..]) by {
        forall k | 0 <= k < |ued[1..]| ensures ued[1..][k].oldSkeletonId == ued[1..][k].skeletonId {
          assert ued[1..][k] == ued[k + 1];
        }
      }
      NoMovesNoneMoved(ued[1..], sk);
    }
  }

  /** An updated node that keeps its skeleton yields a changed edge that
      keeps it too; children always do. */
  lemma ParentRowsKeepSkeleton(tree: seq<Treenode>, updates: seq<NodeUpdate>, dist: Metric)
    requires forall i :: 0 <= i < |updates| ==> updates[i].before.skeletonId == updates[i].after.skeletonId
    ensures NoMoves(UpdatedEdges(tree, updates, dist))
  {
    var ued := UpdatedEdges(tree, updates, dist);
    var pr := ParentRows(tree, updates, dist);
    var cr := ChildRows(tree, updates, dist);
    forall k | 0 <= k < |ued| ensures ued[k].oldSkeletonId == ued[k].skeletonId {
      if k < |pr| {
        var i := ParentRowSource(tree, updates, dist, k);
        assert ued[k] == pr[k];
      } else {
        assert ued[k] == cr[k - |pr|];
      }
    }
  }

  /** Each changed-node row comes from an updated node whose edge changed
      and whose edge end is found, and carries that node's skeleton before
      and after the update. */
  lemma ParentRowsFromUpdates(tree: seq<Treenode>, updates: seq<NodeUpdate>, dist: Metric)
    ensures forall k :: 0 <= k < |ParentRows(tree, updates, dist)| ==>
      exists i :: 0 <= i < |updates| && ParentRowOf(tree, updates[i], ParentRows(tree, updates, dist)[k])
  {
    var rows := ParentRows(tree, updates, dist);
    forall k | 0 <= k < |rows|
      ensures exists i :: 0 <= i < |updates| && ParentRowOf(tree, updates[i], rows[k])
    {
      var i := ParentRowSource(tree, updates, dist, k);
    }
  }

  /** `row` is the changed-node row of update `u`. */
  predicate ParentRowOf(tree: seq<Treenode>, u: NodeUpdate, row: EdgeUpdate)
  {
    && EdgeChanged(u) && EdgeEnd(tree, u.after).Some?
    && row.id == u.after.id
    && row.skeletonId == u.after.skeletonId && row.oldSkeletonId == u.before.skeletonId
  }

  /** The update a changed-node row comes from. */
  lemma {:induction false} ParentRowSource(tree: seq<Treenode>, updates: seq<NodeUpdate>, dist: Metric, k: nat) returns (i: nat)
    requires k < |ParentRows(tree, updates, dist)|
    ensures i < |updates| && ParentRowOf(tree, updates[i], ParentRows(tree, updates, dist)[k])
  {
    var rest := updates[1..];
    var rows := ParentRows(tree, updates, dist);
    var restRows := ParentRows(tree, rest, dist);
    var u := updates[0];
    if EdgeEnd(tree, u.after).Some? && EdgeChanged(u) {
      if k == 0 {
        i := 0;
      } else {
        assert rows[k] == restRows[k - 1];
        var j := ParentRowSource(tree, rest, dist, k - 1);
        i := j + 1;
        assert rest[j] == updates[i];
      }
    } else {
      assert rows == restRows;
      var j := ParentRowSource(tree, rest, dist, k);
      i := j + 1;
      assert rest[j] == updates[i];
    }
  }

  /** An existing row absorbs the edit's sums for its skeleton. */
  lemma EditRowSums(summary: map<int, SummaryRow>, facts: seq<EdgeFact>, now: int, sk: int)
    requires ConsistentProjects(facts) && sk in summary
    ensures sk in Upsert(summary, facts, EditRule, now)
    ensures Upsert(summary, facts, EditRule, now)[sk].numNodes == summary[sk].numNodes + NodeSum(facts, sk)
    ensures Upsert(summary, facts, EditRule, now)[sk].cableLength == summary[sk].cableLength + LengthSum(facts, sk)
  {
    if sk in SkeletonsOf(facts) {
      assert Upsert(summary, facts, EditRule, now)[sk] == Merge(EditRule, Some(summary[sk]), DeltaOf(facts, sk), now);
    } else {
      SumsOfOtherSkeletons(facts, sk);
    }
  }

  /** An edit that moves no node to another skeleton leaves every existing
      row's node count as it was, provided every changed edge has its row
      in the edge table. */
  lemma EditWithoutMovesKeepsCount(summary: map<int, SummaryRow>, tree: seq<Treenode>, updates: seq<NodeUpdate>,
                                   edges: map<int, EdgeRow>, now: int, dist: Metric, sk: int)
    requires ConsistentProjects(EditFacts(tree, updates, edges, dist))
    requires forall i :: 0 <= i < |updates| ==> updates[i].before.skeletonId == updates[i].after.skeletonId
    requires forall k :: 0 <= k < |UpdatedEdges(tree, updates, dist)| ==> UpdatedEdges(tree, updates, dist)[k].id in edges
    requires sk in summary
    ensures sk in SummaryAfterEdit(summary, tree, updates, edges, now, dist)
    ensures SummaryAfterEdit(summary, tree, updates, edges, now, dist)[sk].numNodes == summary[sk].numNodes
  {
    var facts := EditFacts(tree, updates, edges, dist);
    ParentRowsKeepSkeleton(tree, updates, dist);
    NoMovesNoneMoved(UpdatedEdges(tree, updates, dist), sk);
    EditNodeDelta(tree, updates, edges, dist, sk);
    EditRowSums(summary, facts, now, sk);
  }

  lemma {:induction false} MovedConcat(a: seq<EdgeUpdate>, b: seq<EdgeUpdate>, sk: int)
    ensures MovedInto(a + b, sk) == MovedInto(a, sk) + MovedInto(b, sk)
    ensures MovedOutOf(a + b, sk) == MovedOutOf(a, sk) + MovedOutOf(b, sk)
  {
    if a == [] {
      assert a + b == b;
    } else {
      assert (a + b)[1..] == a[1..] + b;
      MovedConcat(a[1..], b, sk);
    }
  }

  /** A single updated node that moves from skeleton `from` to skeleton
      `to`: `from` loses one node and `to` gains one, while the edges of its
      children, which stay where they are, cancel. */
  lemma MovedNodeCounts(summary: map<int, SummaryRow>, tree: seq<Treenode>, u: NodeUpdate,
                        edges: map<int, EdgeRow>, now: int, dist: Metric)
    requires u.before.skeletonId != u.after.skeletonId
    requires EdgeEnd(tree, u.after).Some?
    requires forall k :: 0 <= k < |UpdatedEdges(tree, [u], dist)| ==> UpdatedEdges(tree, [u], dist)[k].id in edges
    requires ConsistentProjects(EditFacts(tree, [u], edges, dist))
    ensures var r := SummaryAfterEdit(summary, tree, [u], edges, now, dist);
      && (u.before.skeletonId in summary ==> r[u.before.skeletonId].numNodes == summary[u.before.skeletonId].numNodes - 1)
      && (u.after.skeletonId in summary ==> r[u.after.skeletonId].numNodes == summary[u.after.skeletonId].numNodes + 1)
  {
    var from, to := u.before.skeletonId, u.after.skeletonId;
    var facts := EditFacts(tree, [u], edges, dist);
    var pr := ParentRows(tree, [u], dist);
    var cr := ChildRows(tree, [u], dist);
    assert [u][1..] == [];
    assert ParentRows(tree, [u][1..], dist) == [];
    assert EdgeChanged(u);
    assert |pr| == 1 && pr[0].skeletonId == to && pr[0].oldSkeletonId == from;
    assert pr[1..] == [];
    assert NoMoves(cr);
    NoMovesNoneMoved(cr, from);
    NoMovesNoneMoved(cr, to);
    MovedConcat(pr, cr, from);
    MovedConcat(pr, cr, to);
    EditNodeDelta(tree, [u], edges, dist, from);
    EditNodeDelta(tree, [u], edges, dist, to);
    if from in summary {
      EditRowSums(summary, facts, now, from);
    }
    if to in summary {
      EditRowSums(summary, facts, now, to);
    }
  }

  /** The edit's conflict rule keeps every existing row's project and
      original creation time, while the update time becomes the statement's
      and the last edition time never decreases. */
  lemma EditKeepsCreationTime(summary: map<int, SummaryRow>, tree: seq<Treenode>, updates: seq<NodeUpdate>,
                              edges: map<int, EdgeRow>, now: int, dist: Metric, sk: int)
    requires ConsistentProjects(EditFacts(tree, updates, edges, dist))
    requires sk in summary
    ensures var r := SummaryAfterEdit(summary, tree, updates, edges, now, dist);
      && sk in r
      && r[sk].originalCreationTime == summary[sk].originalCreationTime
      && r[sk].projectId == summary[sk].projectId
      && r[sk].lastEditionTime >= summary[sk].lastEditionTime
  {
    var facts := EditFacts(tree, updates, edges, dist);
    if sk in SkeletonsOf(facts) {
      assert SummaryAfterEdit(summary, tree, updates, edges, now, dist)[sk] ==
        Merge(EditRule, Some(summary[sk]), DeltaOf(facts, sk), now);
    }
  }

  /** Old and new lengths of the changed edges cancel when no edge moves and
      every new length equals the stored one. */
  lemma {:induction false} OldNewLengthSum(ued: seq<EdgeUpdate>, edges: map<int, EdgeRow>, sk: int)
    requires NoMoves(ued)
    requires forall k :: 0 <= k < |ued| ==> ued[k].id in edges && edges[ued[k].id].length == ued[k].length
    ensures LengthSum(OldEdgeFacts(ued, edges), sk) + LengthSum(NewEdgeFacts(ued), sk) == 0.0
  {
    if ued != [] {
      var rest := ued[1..];
      forall k | 0 <= k < |rest| ensures rest[k].id in edges && edges[rest[k].id].length == rest[k].length &&
        rest[k].oldSkeletonId == rest[k].skeletonId
      {
        assert rest[k] == ued[k + 1];
      }
      OldNewLengthSum(rest, edges, sk);
      assert OldEdgeFacts(ued, edges)[1..] == OldEdgeFacts(rest, edges);
      assert NewEdgeFacts(ued)[1..] == NewEdgeFacts(rest);
    } else {
      assert OldEdgeFacts(ued, edges) == [] && NewEdgeFacts(ued) == [];
    }
  }

  /** An edit that moves no node between skeletons and changes no edge
      length (an edition-time or confidence change, say) leaves every
      existing row's cable length as it was. */
  lemma EditWithoutEdgeChangeKeepsCable(summary: map<int, SummaryRow>, tree: seq<Treenode>, updates: seq<NodeUpdate>,
                                        edges: map<int, EdgeRow>, now: int, dist: Metric, sk: int)
    requires ConsistentProjects(EditFacts(tree, updates, edges, dist))
    requires forall i :: 0 <= i < |updates| ==> updates[i].before.skeletonId == updates[i].after.skeletonId
    requires forall k :: 0 <= k < |UpdatedEdges(tree, updates, dist)| ==>
      UpdatedEdges(tree, updates, dist)[k].id in edges &&
      edges[UpdatedEdges(tree, updates, dist)[k].id].length == UpdatedEdges(tree, updates, dist)[k].length
    requires sk in summary
    ensures sk in SummaryAfterEdit(summary, tree, updates, edges, now, dist)
    ensures SummaryAfterEdit(summary, tree, updates, edges, now, dist)[sk].cableLength == summary[sk].cableLength
  {
    EditCableDeltaZero(tree, updates, edges, dist, sk);
    EditRowSums(summary, EditFacts(tree, updates, edges, dist), now, sk);
  }

  /** Such an edit's length rows cancel for every skeleton. */
  lemma EditCableDeltaZero(tree: seq<Treenode>, updates: seq<NodeUpdate>, edges: map<int, EdgeRow>, dist: Metric, sk: int)
    requires forall i :: 0 <= i < |updates| ==> updates[i].before.skeletonId == updates[i].after.skeletonId
    requires forall k :: 0 <= k < |UpdatedEdges(tree, updates, dist)| ==>
      UpdatedEdges(tree, updates, dist)[k].id in edges &&
      edges[UpdatedEdges(tree, updates, dist)[k].id].length == UpdatedEdges(tree, updates, dist)[k].length
    ensures LengthSum(EditFacts(tree, updates, edges, dist), sk) == 0.0
  {
    var ued := UpdatedEdges(tree, updates, dist);
    ParentRowsKeepSkeleton(tree, updates, dist);
    SecondBranchEmpty(updates, ued, edges);
    OldNewLengthSum(ued, edges, sk);
    var o, n := OldEdgeFacts(ued, edges), NewEdgeFacts(ued);
    NodeSumConcat(o, n, sk);
    assert EditFacts(tree, updates, edges, dist) == o + n + [];
    assert o + n + [] == o + n;
  }

  /** The summed new lengths of the changed edges whose new skeleton is
      `sk`. */
  function NewLengthIn(ued: seq<EdgeUpdate>, sk: int): real
  {
    if ued == [] then 0.0
    else (if ued[0].skeletonId == sk then ued[0].length else 0.0) + NewLengthIn(ued[1..], sk)
  }

  /** The summed stored lengths of the changed edges that have an edge row
      and whose old skeleton is `sk`. */
  function OldLengthIn(ued: seq<EdgeUpdate>, edges: map<int, EdgeRow>, sk: int): real
  {
    if ued == [] then 0.0
    else
      var here := if ued[0].oldSkeletonId == sk && ued[0].id in edges then edges[ued[0].id].length else 0.0;
      here + OldLengthIn(ued[1..], edges, sk)
  }

  /** The old and new length rows of the changed edges add up, per
      skeleton, to the new lengths charged to it minus the stored lengths
      taken from it. */
  lemma {:induction false} OldNewLengthDelta(ued: seq<EdgeUpdate>, edges: map<int, EdgeRow>, sk: int)
    ensures LengthSum(OldEdgeFacts(ued, edges), sk) + LengthSum(NewEdgeFacts(ued), sk) ==
      NewLengthIn(ued, sk) - OldLengthIn(ued, edges, sk)
  {
    if ued != [] {
      var rest := ued[1..];
      OldNewLengthDelta(rest, edges, sk);
      assert NewEdgeFacts(ued)[1..] == NewEdgeFacts(rest);
      if ued[0].id in edges {
        assert OldEdgeFacts(ued, edges)[1..] == OldEdgeFacts(rest, edges);
      } else {
        assert OldEdgeFacts(ued, edges) == OldEdgeFacts(rest, edges);
      }
    } else {
      assert OldEdgeFacts(ued, edges) == [] && NewEdgeFacts(ued) == [];
    }
  }

  /** An edit changes a skeleton's cable length by the new lengths of the
      changed edges now in it minus the stored lengths of those that were
      in it: a moved node's edge leaves its old skeleton with its stored
      length and enters its new one with its new length. */
  lemma EditCableDelta(tree: seq<Treenode>, updates: seq<NodeUpdate>, edges: map<int, EdgeRow>, dist: Metric, sk: int)
    ensures LengthSum(EditFacts(tree, updates, edges, dist), sk) ==
      NewLengthIn(UpdatedEdges(tree, updates, dist), sk) - OldLengthIn(UpdatedEdges(tree, updates, dist), edges, sk)
  {
    var ued := UpdatedEdges(tree, updates, dist);
    OldNewLengthDelta(ued, edges, sk);
    var o, n := OldEdgeFacts(ued, edges), NewEdgeFacts(ued);
    NodeSumConcat(o, n, sk);
    assert EditFacts(tree, updates, edges, dist) == o + n;
  }

  /** An existing row's cable length after the edit: the new lengths charged
      to its skeleton added, the stored lengths taken from it subtracted. */
  lemma EditRowCable(summary: map<int, SummaryRow>, tree: seq<Treenode>, updates: seq<NodeUpdate>,
                     edges: map<int, EdgeRow>, now: int, dist: Metric, sk: int)
    requires ConsistentProjects(EditFacts(tree, updates, edges, dist))
    requires sk in summary
    ensures sk in SummaryAfterEdit(summary, tree, updates, edges, now, dist)
    ensures SummaryAfterEdit(summary, tree, updates, edges, now, dist)[sk].cableLength ==
      summary[sk].cableLength + NewLengthIn(UpdatedEdges(tree, updates, dist), sk)
        - OldLengthIn(UpdatedEdges(tree, updates, dist), edges, sk)
  {
    EditCableDelta(tree, updates, edges, dist, sk);
    EditRowSums(summary, EditFacts(tree, updates, edges, dist), now, sk);
  }
}
