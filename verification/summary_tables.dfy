/**
 * The summary table and the edge table as state the triggers change in
 * place. Each trigger reads both tables as they were when its statement
 * began (all common table expressions of one statement see the same
 * snapshot): the summary rows are computed from the old edge rows, and only
 * then are the edge rows rewritten. Each trigger statement is set-based, so
 * each method replaces a table by the value the corresponding function
 * describes.
 */
module SummaryTables {
  import opened Common
  import opened SummaryRows
  import opened InsertTrigger
  import opened DeleteTrigger
  import opened EditTrigger
  import opened InitialFill

  class SkeletonSummaryTables {
    /** `catmaid_skeleton_summary`, keyed by skeleton id. */
    var summary: map<int, SummaryRow>
    /** `treenode_edge`, keyed by treenode id. */
    var edges: map<int, EdgeRow>

    constructor ()
      ensures summary == map[] && edges == map[]
    {
      summary := map[];
      edges := map[];
    }

    /** The insert trigger. */
    method OnInsert(tree: seq<Treenode>, inserted: seq<Treenode>, now: int, dist: Metric)
      requires forall i :: 0 <= i < |inserted| ==> inserted[i].id !in edges
      requires ConsistentProjects(InsertFacts(tree, inserted, dist))
      modifies this
      ensures summary == SummaryAfterInsert(old(summary), tree, inserted, now, dist)
      ensures edges == EdgesAfterInsert(old(edges), tree, inserted, dist)
    {
      edges := EdgesAfterInsert(edges, tree, inserted, dist);
      summary := SummaryAfterInsert(summary, tree, inserted, now, dist);
    }

    /** The edit trigger: the old edges are read before `updated_edge`
        rewrites them. */
    method OnEdit(tree: seq<Treenode>, updates: seq<NodeUpdate>, now: int, dist: Metric)
      requires ConsistentProjects(EditFacts(tree, updates, edges, dist))
      modifies this
      ensures summary == SummaryAfterEdit(old(summary), tree, updates, old(edges), now, dist)
      ensures edges == EdgesAfterEdit(old(edges), UpdatedEdges(tree, updates, dist))
    {
      summary := SummaryAfterEdit(summary, tree, updates, edges, now, dist);
      edges := EdgesAfterEdit(edges, UpdatedEdges(tree, updates, dist));
    }

    /** The delete trigger: the summary rows are updated from the edges as
        they were, then the deleted nodes' edges are removed. */
    method OnDelete(deleted: seq<Treenode>)
      modifies this
      ensures summary == SummaryAfterDelete(old(summary), DeleteFacts(deleted, old(edges)))
      ensures edges == EdgesAfterDelete(old(edges), deleted)
    {
      summary := SummaryAfterDelete(summary, DeleteFacts(deleted, edges));
      edges := EdgesAfterDelete(edges, deleted);
    }

    /** The initial fill, run once on the freshly created table. */
    method FillInitial(tree: seq<Treenode>, now: int, dist: Metric)
      requires summary == map[]
      requires ConsistentProjects(NodeFacts(tree, tree, dist))
      modifies this
      ensures summary == InitialRows(tree, now, dist)
      ensures edges == old(edges)
    {
      summary := InitialRows(tree, now, dist);
    }
  }
}
