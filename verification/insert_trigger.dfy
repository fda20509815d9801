/**
 * The statement-level trigger that runs after treenodes are inserted. It
 * joins every inserted node to the end of its edge (its parent, or itself
 * when it is a root), stores those edges, groups them by skeleton and
 * upserts the groups into the summary table: a new skeleton gets a row, an
 * existing one has its counts added and its time bounds widened.
 */
module InsertTrigger {
  import opened Common
  import opened SummaryRows

  /** The `new_edges` row of an inserted node `c` whose edge ends at `end`. */
  function InsertFact(c: Treenode, end: Treenode, dist: Metric): EdgeFact
  {
    EdgeFact(c.skeletonId, c.projectId, 1, dist(c.location, end.location), c.creationTime, c.editionTime)
  }

  /** `new_edges`: one row per inserted node whose edge end is in the table
      (`tree` already holds the inserted rows), in the order of `inserted`. */
  function InsertFacts(tree: seq<Treenode>, inserted: seq<Treenode>, dist: Metric): (facts: seq<EdgeFact>)
    ensures |facts| <= |inserted|
  {
    if inserted == [] then []
    else
      var c := inserted[0];
      var rest := InsertFacts(tree, inserted[1..], dist);
      match EdgeEnd(tree, c)
      case None => rest
      case Some(p) => [InsertFact(c, p, dist)] + rest
  }

  /** The rows of `new_edges` are exactly the facts of the inserted nodes
      that find their edge end. */
  lemma {:induction false} InsertFactsMembers(tree: seq<Treenode>, inserted: seq<Treenode>, dist: Metric)
    ensures forall k :: 0 <= k < |InsertFacts(tree, inserted, dist)| ==>
      exists i :: 0 <= i < |inserted| && EdgeEnd(tree, inserted[i]).Some? &&
        InsertFacts(tree, inserted, dist)[k] == InsertFact(inserted[i], EdgeEnd(tree, inserted[i]).value, dist)
    ensures forall i :: 0 <= i < |inserted| && EdgeEnd(tree, inserted[i]).Some? ==>
      InsertFact(inserted[i], EdgeEnd(tree, inserted[i]).value, dist) in InsertFacts(tree, inserted, dist)
  {
    var facts := InsertFacts(tree, inserted, dist);
    forall k | 0 <= k < |facts|
      ensures exists i :: (0 <= i < |inserted| && EdgeEnd(tree, inserted[i]).Some? &&
        facts[k] == InsertFact(inserted[i], EdgeEnd(tree, inserted[i]).value, dist))
    {
      var i := FactSource(tree, inserted, dist, k);
    }
    forall i | 0 <= i < |inserted| && EdgeEnd(tree, inserted[i]).Some?
      ensures InsertFact(inserted[i], EdgeEnd(tree, inserted[i]).value, dist) in facts
    {
      var k := FactOf(tree, inserted, dist, i);
    }
  }

  /** The inserted node a row of `new_edges` comes from. */
  lemma {:induction false} FactSource(tree: seq<Treenode>, inserted: seq<Treenode>, dist: Metric, k: nat) returns (i: nat)
    requires k < |InsertFacts(tree, inserted, dist)|
    ensures i < |inserted| && EdgeEnd(tree, inserted[i]).Some?
    ensures InsertFacts(tree, inserted, dist)[k] == InsertFact(inserted[i], EdgeEnd(tree, inserted[i]).value, dist)
  {
    var rest := inserted[1..];
    var facts := InsertFacts(tree, inserted, dist);
    var restFacts := InsertFacts(tree, rest, dist);
    if EdgeEnd(tree, inserted[0]).None? {
      assert facts == restFacts;
      var j := FactSource(tree, rest, dist, k);
      i := j + 1;
      assert rest[j] == inserted[i];
    } else if k == 0 {
      i := 0;
    } else {
      assert facts == [InsertFact(inserted[0], EdgeEnd(tree, inserted[0]).value, dist)] + restFacts;
      assert facts[k] == restFacts[k - 1];
      var j := FactSource(tree, rest, dist, k - 1);
      i := j + 1;
      assert rest[j] == inserted[i];
    }
  }

  /** The row of `new_edges` an inserted node with an edge end yields. */
  lemma {:induction false} FactOf(tree: seq<Treenode>, inserted: seq<Treenode>, dist: Metric, i: nat) returns (k: nat)
    requires i < |inserted| && EdgeEnd(tree, inserted[i]).Some?
    ensures k < |InsertFacts(tree, inserted, dist)|
    ensures InsertFacts(tree, inserted, dist)[k] == InsertFact(inserted[i], EdgeEnd(tree, inserted[i]).value, dist)
  {
    var rest := inserted[1..];
    var facts := InsertFacts(tree, inserted, dist);
    var restFacts := InsertFacts(tree, rest, dist);
    if i == 0 {
      k := 0;
    } else {
      assert rest[i - 1] == inserted[i];
      var j := FactOf(tree, rest, dist, i - 1);
      if EdgeEnd(tree, inserted[0]).None? {
        assert facts == restFacts;
        k := j;
      } else {
        assert facts == [InsertFact(inserted[0], EdgeEnd(tree, inserted[0]).value, dist)] + restFacts;
        k := j + 1;
      }
    }
  }

  /** The rows `edge_insert` adds to `treenode_edge`, keyed by node id. */
  function NewEdgeRows(tree: seq<Treenode>, inserted: seq<Treenode>, dist: Metric): (m: map<int, EdgeRow>)
    ensures forall id :: id in m ==> exists i :: 0 <= i < |inserted| && inserted[i].id == id
  {
    if inserted == [] then map[]
    else
      var c := inserted[0];
      var rest := NewEdgeRows(tree, inserted[1..], dist);
      assert forall i :: 1 <= i < |inserted| ==> inserted[1..][i - 1] == inserted[i];
      match EdgeEnd(tree, c)
      case None => rest
      case Some(p) => rest[c.id := EdgeRow(c.projectId, dist(c.location, p.location))]
  }

  /** The edge table after the insert. An id that already has an edge row
      violates the edge table's primary key, so it is excluded. */
  function EdgesAfterInsert(edges: map<int, EdgeRow>, tree: seq<Treenode>, inserted: seq<Treenode>, dist: Metric): (e: map<int, EdgeRow>)
    requires forall i :: 0 <= i < |inserted| ==> inserted[i].id !in edges
    ensures forall id :: id in edges ==> id in e && e[id] == edges[id]
    ensures forall id :: id in e && id !in edges ==> exists i :: 0 <= i < |inserted| && inserted[i].id == id
  {
    edges + NewEdgeRows(tree, inserted, dist)
  }

  /** The summary table after the insert. */
  function SummaryAfterInsert(summary: map<int, SummaryRow>, tree: seq<Treenode>, inserted: seq<Treenode>, now: int, dist: Metric): (r: map<int, SummaryRow>)
    requires ConsistentProjects(InsertFacts(tree, inserted, dist))
    ensures summary.Keys <= r.Keys
    ensures forall sk :: sk in r && sk !in summary ==> exists i :: 0 <= i < |inserted| && inserted[i].skeletonId == sk
    ensures forall sk :: sk in summary && (forall i :: 0 <= i < |inserted| ==> inserted[i].skeletonId != sk) ==>
      r[sk] == summary[sk]
  {
    InsertSkeletonsOfInserted(tree, inserted, dist);
    Upsert(summary, InsertFacts(tree, inserted, dist), InsertRule, now)
  }

  /** The total edge length of the inserted nodes of skeleton `sk`. */
  function SkeletonEdgeLength(tree: seq<Treenode>, nodes: seq<Treenode>, sk: int, dist: Metric): real
  {
    if nodes == [] then 0.0
    else (if nodes[0].skeletonId == sk then EdgeLength(tree, nodes[0], dist) else 0.0) + SkeletonEdgeLength(tree, nodes[1..], sk, dist)
  }

  /** Every inserted node of skeleton `sk` finds the end of its edge. */
  predicate EndsFound(tree: seq<Treenode>, inserted: seq<Treenode>, sk: int)
  {
    forall i :: 0 <= i < |inserted| && inserted[i].skeletonId == sk ==> EdgeEnd(tree, inserted[i]).Some?
  }

  /** When every inserted node of `sk` finds its edge end, the group of `sk`
      counts exactly those nodes and sums exactly their edge lengths. */
  lemma {:induction false} InsertFactSums(tree: seq<Treenode>, inserted: seq<Treenode>, sk: int, dist: Metric)
    requires EndsFound(tree, inserted, sk)
    ensures NodeSum(InsertFacts(tree, inserted, dist), sk) == CountNodes(inserted, sk)
    ensures LengthSum(InsertFacts(tree, inserted, dist), sk) == SkeletonEdgeLength(tree, inserted, sk, dist)
  {
    if inserted != [] {
      var rest := inserted[1..];
      assert EndsFound(tree, rest, sk) by {
        forall i | 0 <= i < |rest| && rest[i].skeletonId == sk ensures EdgeEnd(tree, rest[i]).Some? {
          assert rest[i] == inserted[i + 1];
        }
      }
      InsertFactSums(tree, rest, sk, dist);
      var facts := InsertFacts(tree, inserted, dist);
      var restFacts := InsertFacts(tree, rest, dist);
      if inserted[0].skeletonId == sk {
        var p := EdgeEnd(tree, inserted[0]).value;
        assert facts == [InsertFact(inserted[0], p, dist)] + restFacts;
        assert facts[1..] == restFacts;
      } else if EdgeEnd(tree, inserted[0]).Some? {
        assert facts[1..] == restFacts;
      }
    }
  }

  /** The skeletons the insert touches are those of the inserted nodes. */
  lemma InsertSkeletons(tree: seq<Treenode>, inserted: seq<Treenode>, sk: int, dist: Metric)
    ensures sk in SkeletonsOf(InsertFacts(tree, inserted, dist)) ==> exists i :: 0 <= i < |inserted| && inserted[i].skeletonId == sk
    ensures EndsFound(tree, inserted, sk) && (exists i :: 0 <= i < |inserted| && inserted[i].skeletonId == sk) ==>
      sk in SkeletonsOf(InsertFacts(tree, inserted, dist))
  {
    var facts := InsertFacts(tree, inserted, dist);
    InsertFactsMembers(tree, inserted, dist);
    if sk in SkeletonsOf(facts) {
      var k :| 0 <= k < |facts| && facts[k].skeletonId == sk;
      var i :| 0 <= i < |inserted| && EdgeEnd(tree, inserted[i]).Some? &&
        facts[k] == InsertFact(inserted[i], EdgeEnd(tree, inserted[i]).value, dist);
    }
    if EndsFound(tree, inserted, sk) && exists i :: 0 <= i < |inserted| && inserted[i].skeletonId == sk {
      var i :| 0 <= i < |inserted| && inserted[i].skeletonId == sk;
      var f := InsertFact(inserted[i], EdgeEnd(tree, inserted[i]).value, dist);
      assert f in facts;
      var k :| 0 <= k < |facts| && facts[k] == f;
    }
  }

  lemma InsertSkeletonsOfInserted(tree: seq<Treenode>, inserted: seq<Treenode>, dist: Metric)
    ensures forall sk :: sk in SkeletonsOf(InsertFacts(tree, inserted, dist)) ==>
      exists i :: 0 <= i < |inserted| && inserted[i].skeletonId == sk
  {
    forall sk | sk in SkeletonsOf(InsertFacts(tree, inserted, dist))
      ensures exists i :: 0 <= i < |inserted| && inserted[i].skeletonId == sk
    {
      InsertSkeletons(tree, inserted, sk, dist);
    }
  }

  /** A skeleton without a summary row gets one: the inserted nodes' count
      and edge lengths, their earliest creation and latest edition time,
      a project of one of them, and the statement's time as update time. */
  lemma InsertCreatesRow(summary: map<int, SummaryRow>, tree: seq<Treenode>, inserted: seq<Treenode>, now: int, dist: Metric, sk: int)
    requires ConsistentProjects(InsertFacts(tree, inserted, dist))
    requires sk !in summary && EndsFound(tree, inserted, sk)
    requires exists i :: 0 <= i < |inserted| && inserted[i].skeletonId == sk
    ensures sk in SummaryAfterInsert(summary, tree, inserted, now, dist)
    ensures var r := SummaryAfterInsert(summary, tree, inserted, now, dist)[sk];
      && r.numNodes == CountNodes(inserted, sk)
      && r.cableLength == SkeletonEdgeLength(tree, inserted, sk, dist)
      && r.lastSummaryUpdate == now
      && (exists i :: 0 <= i < |inserted| && inserted[i].skeletonId == sk && r.projectId == inserted[i].projectId)
      && (forall i :: 0 <= i < |inserted| && inserted[i].skeletonId == sk ==>
            r.originalCreationTime <= inserted[i].creationTime && inserted[i].editionTime <= r.lastEditionTime)
      && (exists i :: 0 <= i < |inserted| && inserted[i].skeletonId == sk && r.originalCreationTime == inserted[i].creationTime)
      && (exists i :: 0 <= i < |inserted| && inserted[i].skeletonId == sk && r.lastEditionTime == inserted[i].editionTime)
  {
    var facts := InsertFacts(tree, inserted, dist);
    InsertSkeletons(tree, inserted, sk, dist);
    InsertFactSums(tree, inserted, sk, dist);
    var r := SummaryAfterInsert(summary, tree, inserted, now, dist)[sk];
    assert r == Merge(InsertRule, None, DeltaOf(facts, sk), now);
    FactBounds(tree, inserted, dist, sk);
  }

  /** The time bounds and project of a group of `new_edges` come from the
      inserted nodes of that skeleton. */
  lemma FactBounds(tree: seq<Treenode>, inserted: seq<Treenode>, dist: Metric, sk: int)
    requires EndsFound(tree, inserted, sk)
    requires sk in SkeletonsOf(InsertFacts(tree, inserted, dist))
    ensures var facts := InsertFacts(tree, inserted, dist);
      && (forall i :: 0 <= i < |inserted| && inserted[i].skeletonId == sk ==>
            Earliest(facts, sk) <= inserted[i].creationTime && inserted[i].editionTime <= Latest(facts, sk))
      && (exists i :: 0 <= i < |inserted| && inserted[i].skeletonId == sk && Earliest(facts, sk) == inserted[i].creationTime)
      && (exists i :: 0 <= i < |inserted| && inserted[i].skeletonId == sk && Latest(facts, sk) == inserted[i].editionTime)
      && (exists i :: 0 <= i < |inserted| && inserted[i].skeletonId == sk && GroupProject(facts, sk) == inserted[i].projectId)
  {
    var facts := InsertFacts(tree, inserted, dist);
    var early, late := Earliest(facts, sk), Latest(facts, sk);
    forall i | 0 <= i < |inserted| && inserted[i].skeletonId == sk
      ensures early <= inserted[i].creationTime && inserted[i].editionTime <= late
    {
      var k := FactOf(tree, inserted, dist, i);
    }
    var k1 :| 0 <= k1 < |facts| && facts[k1].skeletonId == sk && facts[k1].creationTime == early;
    var i1 := FactSource(tree, inserted, dist, k1);
    var k2 :| 0 <= k2 < |facts| && facts[k2].skeletonId == sk && facts[k2].editionTime == late;
    var i2 := FactSource(tree, inserted, dist, k2);
    var k3 :| 0 <= k3 < |facts| && facts[k3].skeletonId == sk && facts[k3].projectId == GroupProject(facts, sk);
    var i3 := FactSource(tree, inserted, dist, k3);
  }

  /** An existing row has the inserted count and lengths added, keeps its
      project, takes the earlier of its creation time and the inserted
      nodes' earliest, the later of its edition time and their latest, and
      the statement's time as update time. */
  lemma InsertMergesRow(summary: map<int, SummaryRow>, tree: seq<Treenode>, inserted: seq<Treenode>, now: int, dist: Metric, sk: int)
    requires ConsistentProjects(InsertFacts(tree, inserted, dist))
    requires sk in summary && EndsFound(tree, inserted, sk)
    requires exists i :: 0 <= i < |inserted| && inserted[i].skeletonId == sk
    ensures sk in SummaryAfterInsert(summary, tree, inserted, now, dist)
    ensures var old_ := summary[sk];
      var r := SummaryAfterInsert(summary, tree, inserted, now, dist)[sk];
      && r.numNodes == old_.numNodes + CountNodes(inserted, sk)
      && r.cableLength == old_.cableLength + SkeletonEdgeLength(tree, inserted, sk, dist)
      && r.projectId == old_.projectId
      && r.lastSummaryUpdate == now
      && r.originalCreationTime <= old_.originalCreationTime
      && r.lastEditionTime >= old_.lastEditionTime
      && (forall i :: 0 <= i < |inserted| && inserted[i].skeletonId == sk ==>
            r.originalCreationTime <= inserted[i].creationTime && inserted[i].editionTime <= r.lastEditionTime)
      && (r.originalCreationTime == old_.originalCreationTime ||
          exists i :: 0 <= i < |inserted| && inserted[i].skeletonId == sk && r.originalCreationTime == inserted[i].creationTime)
      && (r.lastEditionTime == old_.lastEditionTime ||
          exists i :: 0 <= i < |inserted| && inserted[i].skeletonId == sk && r.lastEditionTime == inserted[i].editionTime)
  {
    var facts := InsertFacts(tree, inserted, dist);
    InsertSkeletons(tree, inserted, sk, dist);
    InsertFactSums(tree, inserted, sk, dist);
    var r := SummaryAfterInsert(summary, tree, inserted, now, dist)[sk];
    assert r == Merge(InsertRule, Some(summary[sk]), DeltaOf(facts, sk), now);
    FactBounds(tree, inserted, dist, sk);
  }

  /** A root is joined to itself: it counts as a node and adds a
      zero-length edge. */
  lemma RootAddsNoCable(tree: seq<Treenode>, root: Treenode, dist: Metric)
    requires IsLength(dist) && DistinctIds(tree)
    requires root in tree && root.parentId.None?
    ensures EdgeLength(tree, root, dist) == 0.0
    ensures InsertFacts(tree, [root], dist) == [EdgeFact(root.skeletonId, root.projectId, 1, 0.0, root.creationTime, root.editionTime)]
  {
    var i :| 0 <= i < |tree| && tree[i] == root;
    assert EdgeEnd(tree, root) == Some(root);
    assert dist(root.location, root.location) == 0.0;
    assert [root][1..] == [];
  }

  /** With distinct ids, the new edge rows hold each inserted node's edge
      under its id, with its project and length, and nothing for a node
      whose edge end is missing. */
  lemma {:induction false} NewEdgeRowsStore(tree: seq<Treenode>, inserted: seq<Treenode>, dist: Metric)
    requires DistinctIds(inserted)
    ensures forall i :: 0 <= i < |inserted| && EdgeEnd(tree, inserted[i]).Some? ==>
      inserted[i].id in NewEdgeRows(tree, inserted, dist) &&
      NewEdgeRows(tree, inserted, dist)[inserted[i].id] == EdgeRow(inserted[i].projectId, EdgeLength(tree, inserted[i], dist))
    ensures forall i :: 0 <= i < |inserted| && EdgeEnd(tree, inserted[i]).None? ==>
      inserted[i].id !in NewEdgeRows(tree, inserted, dist)
  {
    if inserted != [] {
      var rest := inserted[1..];
      assert forall i :: 0 <= i < |rest| ==> rest[i] == inserted[i + 1];
      NewEdgeRowsStore(tree, rest, dist);
      forall i | 1 <= i < |inserted| ensures inserted[i].id != inserted[0].id {
      }
    }
  }
}
