/**
 * The tables the skeleton-summary triggers read and write, and the merge
 * rules by which a trigger folds its per-skeleton aggregates into the
 * summary table. The treenode table is a sequence of rows with distinct ids;
 * the edge table and the summary table are keyed by treenode id and by
 * skeleton id. Edge length is a given non-negative function of the two end
 * points (the PostGIS line length is not modelled); timestamps are integers.
 */
module SummaryRows {
  import opened Common

  datatype Point = Point(x: real, y: real, z: real)

  /** A row of `treenode`. */
  datatype Treenode = Treenode(
    id: int, projectId: int, skeletonId: int, parentId: Option<int>,
    location: Point, creationTime: int, editionTime: int)

  /** A row of `treenode_edge`: the edge from a node to its parent, or a
      zero-length edge from a root to itself, stored under the node's id. */
  datatype EdgeRow = EdgeRow(projectId: int, length: real)

  /** A row of `catmaid_skeleton_summary`. */
  datatype SummaryRow = SummaryRow(
    projectId: int, lastSummaryUpdate: int, originalCreationTime: int,
    lastEditionTime: int, numNodes: int, cableLength: real)

  /** The length of the line between two points. */
  type Metric = (Point, Point) -> real

  /** What the triggers rely on of a line length: never negative, and zero
      from a point to itself. */
  ghost predicate IsLength(dist: Metric)
  {
    forall p, q :: dist(p, q) >= 0.0 && dist(p, p) == 0.0
  }

  /** Treenode ids are the table's primary key. */
  predicate DistinctIds(nodes: seq<Treenode>)
  {
    forall i, j :: 0 <= i < j < |nodes| ==> nodes[i].id != nodes[j].id
  }

  /** The row of the treenode table with the given id. */
  function FindNode(tree: seq<Treenode>, id: int): (r: Option<Treenode>)
    ensures r.Some? ==> r.value in tree && r.value.id == id
    ensures r.None? <==> forall i :: 0 <= i < |tree| ==> tree[i].id != id
    ensures DistinctIds(tree) ==> forall i :: 0 <= i < |tree| && tree[i].id == id ==> r == Some(tree[i])
  {
    if tree == [] then None
    else if tree[0].id == id then Some(tree[0])
    else
      var r := FindNode(tree[1..], id);
      assert forall i :: 1 <= i < |tree| ==> tree[1..][i - 1] == tree[i];
      r
  }

  /** The node the edge of `c` ends at, as the join `(c.parent_id = p.id) OR
      (c.parent_id IS NULL AND c.id = p.id)` finds it: the parent, or the
      node itself when it has none; None when that row is missing. */
  function EdgeEnd(tree: seq<Treenode>, c: Treenode): (r: Option<Treenode>)
    ensures r.Some? ==> r.value in tree
    ensures r.Some? && c.parentId.Some? ==> r.value.id == c.parentId.value
    ensures r.Some? && c.parentId.None? ==> r.value.id == c.id
  {
    match c.parentId
    case None => FindNode(tree, c.id)
    case Some(p) => FindNode(tree, p)
  }

  /** The length of the edge of `c`, zero when its end is missing. */
  function EdgeLength(tree: seq<Treenode>, c: Treenode, dist: Metric): real
  {
    match EdgeEnd(tree, c)
    case None => 0.0
    case Some(p) => dist(c.location, p.location)
  }

  /** The number of nodes of skeleton `sk` among `nodes`. */
  function CountNodes(nodes: seq<Treenode>, sk: int): (n: nat)
    ensures n <= |nodes|
  {
    if nodes == [] then 0
    else (if nodes[0].skeletonId == sk then 1 else 0) + CountNodes(nodes[1..], sk)
  }

  /** One row a trigger aggregates: a signed node count and length for a
      skeleton of a project, with the times that row carries. */
  datatype EdgeFact = EdgeFact(
    skeletonId: int, projectId: int, nodes: int, length: real,
    creationTime: int, editionTime: int)

  /** The skeleton ids the facts are about. */
  function SkeletonsOf(facts: seq<EdgeFact>): (ks: set<int>)
    ensures forall k :: k in ks <==> exists i :: 0 <= i < |facts| && facts[i].skeletonId == k
  {
    set i | 0 <= i < |facts| :: facts[i].skeletonId
  }

  /** All facts about one skeleton name the same project, as every
      skeleton's nodes do. A statement whose groups by (skeleton, project)
      share a skeleton id is rejected by the summary table's upsert. */
  predicate ConsistentProjects(facts: seq<EdgeFact>)
  {
    forall i, j :: 0 <= i < |facts| && 0 <= j < |facts| && facts[i].skeletonId == facts[j].skeletonId ==>
      facts[i].projectId == facts[j].projectId
  }

  /** `SUM(num_nodes)` of a skeleton's group. */
  function NodeSum(facts: seq<EdgeFact>, sk: int): int
  {
    if facts == [] then 0
    else (if facts[0].skeletonId == sk then facts[0].nodes else 0) + NodeSum(facts[1..], sk)
  }

  /** `SUM(length)` of a skeleton's group. */
  function LengthSum(facts: seq<EdgeFact>, sk: int): real
  {
    if facts == [] then 0.0
    else (if facts[0].skeletonId == sk then facts[0].length else 0.0) + LengthSum(facts[1..], sk)
  }

  /** `MIN(creation_time)` of a skeleton's group. */
  function Earliest(facts: seq<EdgeFact>, sk: int): (t: int)
    requires sk in SkeletonsOf(facts)
    ensures exists i :: 0 <= i < |facts| && facts[i].skeletonId == sk && facts[i].creationTime == t
    ensures forall i :: 0 <= i < |facts| && facts[i].skeletonId == sk ==> t <= facts[i].creationTime
  {
    var rest := facts[1..];
    assert forall i :: 1 <= i < |facts| ==> facts[i] == rest[i - 1];
    if facts[0].skeletonId != sk then
      assert sk in SkeletonsOf(rest) by {
        var i :| 0 <= i < |facts| && facts[i].skeletonId == sk;
        assert rest[i - 1] == facts[i];
      }
      Earliest(rest, sk)
    else if sk in SkeletonsOf(rest) then Min(facts[0].creationTime, Earliest(rest, sk))
    else facts[0].creationTime
  }

  /** `MAX(edition_time)` of a skeleton's group. */
  function Latest(facts: seq<EdgeFact>, sk: int): (t: int)
    requires sk in SkeletonsOf(facts)
    ensures exists i :: 0 <= i < |facts| && facts[i].skeletonId == sk && facts[i].editionTime == t
    ensures forall i :: 0 <= i < |facts| && facts[i].skeletonId == sk ==> facts[i].editionTime <= t
  {
    var rest := facts[1..];
    assert forall i :: 1 <= i < |facts| ==> facts[i] == rest[i - 1];
    if facts[0].skeletonId != sk then
      assert sk in SkeletonsOf(rest) by {
        var i :| 0 <= i < |facts| && facts[i].skeletonId == sk;
        assert rest[i - 1] == facts[i];
      }
      Latest(rest, sk)
    else if sk in SkeletonsOf(rest) then Max(facts[0].editionTime, Latest(rest, sk))
    else facts[0].editionTime
  }

  function Min(a: int, b: int): int { if a <= b then a else b }
  function Max(a: int, b: int): int { if a >= b then a else b }

  /** The project of a skeleton's group: the project of its first fact. */
  function GroupProject(facts: seq<EdgeFact>, sk: int): (p: int)
    requires sk in SkeletonsOf(facts)
    ensures exists i :: 0 <= i < |facts| && facts[i].skeletonId == sk && facts[i].projectId == p
  {
    var rest := facts[1..];
    assert forall i :: 1 <= i < |facts| ==> facts[i] == rest[i - 1];
    if facts[0].skeletonId == sk then facts[0].projectId
    else
      assert sk in SkeletonsOf(rest) by {
        var i :| 0 <= i < |facts| && facts[i].skeletonId == sk;
        assert rest[i - 1] == facts[i];
      }
      GroupProject(rest, sk)
  }

  /** One row of the aggregate a trigger upserts. */
  datatype Delta = Delta(projectId: int, numNodes: int, length: real, minCreation: int, maxEdition: int)

  function DeltaOf(facts: seq<EdgeFact>, sk: int): Delta
    requires sk in SkeletonsOf(facts)
  {
    Delta(GroupProject(facts, sk), NodeSum(facts, sk), LengthSum(facts, sk), Earliest(facts, sk), Latest(facts, sk))
  }

  /** The insert trigger's ON CONFLICT rule also lowers the original creation
      time; the edit trigger's rule leaves it alone. */
  datatype MergeRule = InsertRule | EditRule

  function Get(summary: map<int, SummaryRow>, sk: int): Option<SummaryRow>
  {
    if sk in summary then Some(summary[sk]) else None
  }

  /** `INSERT ... ON CONFLICT (skeleton_id) DO UPDATE` for one aggregate row. */
  function Merge(rule: MergeRule, existing: Option<SummaryRow>, d: Delta, now: int): (r: SummaryRow)
    ensures existing.None? ==> r == SummaryRow(d.projectId, now, d.minCreation, d.maxEdition, d.numNodes, d.length)
    ensures existing.Some? ==>
      && r.projectId == existing.value.projectId
      && r.lastSummaryUpdate == now
      && r.numNodes == existing.value.numNodes + d.numNodes
      && r.cableLength == existing.value.cableLength + d.length
      && r.lastEditionTime >= existing.value.lastEditionTime && r.lastEditionTime >= d.maxEdition
      && (r.lastEditionTime == existing.value.lastEditionTime || r.lastEditionTime == d.maxEdition)
    ensures existing.Some? && rule == InsertRule ==>
      && r.originalCreationTime <= existing.value.originalCreationTime && r.originalCreationTime <= d.minCreation
      && (r.originalCreationTime == existing.value.originalCreationTime || r.originalCreationTime == d.minCreation)
    ensures existing.Some? && rule == EditRule ==> r.originalCreationTime == existing.value.originalCreationTime
  {
    match existing
    case None => SummaryRow(d.projectId, now, d.minCreation, d.maxEdition, d.numNodes, d.length)
    case Some(s) =>
      SummaryRow(
        s.projectId, now,
        if rule == InsertRule then Min(s.originalCreationTime, d.minCreation) else s.originalCreationTime,
        Max(s.lastEditionTime, d.maxEdition),
        s.numNodes + d.numNodes,
        s.cableLength + d.length)
  }

  /** The summary table after `INSERT ... ON CONFLICT (skeleton_id) DO
      UPDATE` of every group of `facts`: a skeleton with a group gets its
      row created or merged, every other row is untouched. */
  function Upsert(summary: map<int, SummaryRow>, facts: seq<EdgeFact>, rule: MergeRule, now: int): (r: map<int, SummaryRow>)
    requires ConsistentProjects(facts)
    ensures r.Keys == summary.Keys + SkeletonsOf(facts)
    ensures forall sk :: sk in summary && sk !in SkeletonsOf(facts) ==> r[sk] == summary[sk]
  {
    map sk | sk in summary.Keys + SkeletonsOf(facts) ::
      if sk in SkeletonsOf(facts) then Merge(rule, Get(summary, sk), DeltaOf(facts, sk), now) else summary[sk]
  }

  lemma {:induction false} NodeSumConcat(a: seq<EdgeFact>, b: seq<EdgeFact>, sk: int)
    ensures NodeSum(a + b, sk) == NodeSum(a, sk) + NodeSum(b, sk)
    ensures LengthSum(a + b, sk) == LengthSum(a, sk) + LengthSum(b, sk)
  {
    if a == [] {
      assert a + b == b;
    } else {
      assert (a + b)[1..] == a[1..] + b;
      NodeSumConcat(a[1..], b, sk);
    }
  }

  /** Facts that are not about `sk` add nothing to its sums. */
  lemma {:induction false} SumsOfOtherSkeletons(facts: seq<EdgeFact>, sk: int)
    requires sk !in SkeletonsOf(facts)
    ensures NodeSum(facts, sk) == 0 && LengthSum(facts, sk) == 0.0
  {
    if facts != [] {
      assert forall i :: 0 <= i < |facts[1..]| ==> facts[1..][i] == facts[i + 1];
      SumsOfOtherSkeletons(facts[1..], sk);
    }
  }
}
