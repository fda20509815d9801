/**
 * The synapse step of the sampler workflow. It keeps the ids of the treenodes
 * of the interval being sampled (`intervalTreenodes`) and reacts to every
 * change of the active node: a new node traced off an inner node of the
 * interval joins the set, while a node outside the interval raises a warning.
 * It also builds the list of connectors a synapse is drawn from.
 */
module SynapseStep {
  import opened Common
  import opened SamplerRecords
  import opened CandidateFilters

  /** The node that became active, as far as the step can tell it apart: a
      connector, a real treenode with its parent id (None when it has none),
      or a virtual node between a real child and a real parent. */
  datatype ActiveNode =
    | ConnectorNode(id: int)
    | RealNode(id: int, parentId: Option<int>)
    | VirtualNode(realChildId: int, realParentId: int)

  /** What the step does besides updating its set: warn that the active node
      is outside the interval, refresh the connector tables, highlight the
      active node in the tables. */
  datatype Reaction = Reaction(warned: bool, refreshedTables: bool, highlighted: bool)

  datatype Tracked = Tracked(nodes: set<int>, reaction: Reaction)

  /** `!node.parent_id`: a missing parent or parent id 0. */
  predicate NoParent(parentId: Option<int>)
  {
    parentId.None? || parentId.value == 0
  }

  /** The parent is an inner node of the interval: in the set and neither the
      interval's start nor its end node. */
  predicate InnerIntervalNode(nodes: set<int>, startNodeId: int, endNodeId: int, parentId: Option<int>)
  {
    parentId.Some? && parentId.value in nodes && parentId.value != startNodeId && parentId.value != endNodeId
  }

  /** `handleActiveNodeChange` on the set `nodes`, for the interval with the
      given start and end nodes: the new set and the reaction. */
  function Track(nodes: set<int>, startNodeId: int, endNodeId: int, node: ActiveNode): (r: Tracked)
    ensures nodes <= r.nodes
    ensures r.reaction.refreshedTables <==> node.ConnectorNode? && node.id !in nodes
    ensures r.reaction.highlighted <==> !r.reaction.refreshedTables
    ensures r.reaction.refreshedTables ==> !r.reaction.warned
  {
    match node
    case ConnectorNode(id) =>
      if id in nodes then Tracked(nodes, Reaction(false, false, true))
      else Tracked(nodes, Reaction(false, true, false))
    case RealNode(id, parentId) =>
      if id in nodes then Tracked(nodes, Reaction(false, false, true))
      else
        var warn := NoParent(parentId) || !InnerIntervalNode(nodes, startNodeId, endNodeId, parentId);
        Tracked(if warn then nodes else nodes + {id}, Reaction(warn, false, true))
    case VirtualNode(childId, parentId) =>
      Tracked(nodes, Reaction(!(childId in nodes && parentId in nodes), false, true))
  }

  /** The set only grows, and by at most the active node's id; it grows
      exactly for a real node not yet in the set with a parent that is an
      inner node of the interval, and then no warning is shown. */
  lemma TrackGrowsOnlyByNewInnerNode(nodes: set<int>, startNodeId: int, endNodeId: int, node: ActiveNode)
    ensures var t := Track(nodes, startNodeId, endNodeId, node);
      nodes <= t.nodes && (t.nodes == nodes || (node.RealNode? && t.nodes == nodes + {node.id}))
    ensures var t := Track(nodes, startNodeId, endNodeId, node);
      t.nodes != nodes <==>
        node.RealNode? && node.id !in nodes && !NoParent(node.parentId) &&
        InnerIntervalNode(nodes, startNodeId, endNodeId, node.parentId)
    ensures var t := Track(nodes, startNodeId, endNodeId, node);
      t.nodes != nodes ==> !t.reaction.warned
  {
  }

  /** The cases that leave the set alone: a node already in the set raises no
      warning; an unknown connector refreshes the tables and returns before
      highlighting, without a warning; an unknown virtual node warns unless
      both its real child and its real parent are in the set. */
  lemma TrackUnchangedCases(nodes: set<int>, startNodeId: int, endNodeId: int, node: ActiveNode)
    ensures (node.ConnectorNode? || node.RealNode?) && node.id in nodes ==>
      Track(nodes, startNodeId, endNodeId, node) == Tracked(nodes, Reaction(false, false, true))
    ensures node.ConnectorNode? && node.id !in nodes ==>
      Track(nodes, startNodeId, endNodeId, node) == Tracked(nodes, Reaction(false, true, false))
    ensures node.VirtualNode? ==>
      Track(nodes, startNodeId, endNodeId, node).nodes == nodes &&
      (Track(nodes, startNodeId, endNodeId, node).reaction.warned <==> !(node.realChildId in nodes && node.realParentId in nodes))
  {
  }

  /** The set after a run of active-node changes. */
  function Replay(nodes: set<int>, startNodeId: int, endNodeId: int, events: seq<ActiveNode>): (r: set<int>)
    ensures nodes <= r
    ensures (forall i :: 0 <= i < |events| ==> !events[i].RealNode?) ==> r == nodes
    decreases |events|
  {
    if events == [] then nodes
    else Replay(Track(nodes, startNodeId, endNodeId, events[0]).nodes, startNodeId, endNodeId, events[1..])
  }

  /** Over any run of active-node changes the set keeps every id it had, and
      every id it gains is the id of a real node that became active. */
  lemma {:induction false} ReplayGrowsFromRealNodes(nodes: set<int>, startNodeId: int, endNodeId: int, events: seq<ActiveNode>)
    ensures nodes <= Replay(nodes, startNodeId, endNodeId, events)
    ensures forall x :: x in Replay(nodes, startNodeId, endNodeId, events) && x !in nodes ==>
      exists i :: 0 <= i < |events| && events[i].RealNode? && events[i].id == x
    decreases |events|
  {
    if events != [] {
      var t := Track(nodes, startNodeId, endNodeId, events[0]);
      TrackGrowsOnlyByNewInnerNode(nodes, startNodeId, endNodeId, events[0]);
      ReplayGrowsFromRealNodes(t.nodes, startNodeId, endNodeId, events[1..]);
      forall x | x in Replay(nodes, startNodeId, endNodeId, events) && x !in nodes
        ensures exists i :: 0 <= i < |events| && events[i].RealNode? && events[i].id == x
      {
        if x in t.nodes {
          assert events[0].RealNode? && events[0].id == x;
        } else {
          var i :| 0 <= i < |events[1..]| && events[1..][i].RealNode? && events[1..][i].id == x;
          assert events[i + 1] == events[1..][i];
        }
      }
    }
  }

  function OnTreenodes(nodes: set<int>): ConnectorRow -> bool
  {
    (c: ConnectorRow) => c.treenodeId in nodes
  }

  /** The links of a connector table that the data callback keeps: those
      whose treenode is one of the interval's nodes, in their order. */
  function IntervalLinks(links: seq<ConnectorRow>, nodes: set<int>): (r: seq<ConnectorRow>)
    ensures forall i :: 0 <= i < |r| ==> r[i] in links && r[i].treenodeId in nodes
    ensures forall i :: 0 <= i < |links| && links[i].treenodeId in nodes ==> links[i] in r
  {
    Filter(links, OnTreenodes(nodes))
  }

  /** Every connector of a sampled list whose sampler record names a state
      finds that state among the known states; the lookup
      `possibleStates[sc.state_id].name` needs nothing more. */
  predicate StatesKnownFor(list: seq<ConnectorRow>, samplerConnectors: map<int, SamplerConnector>, states: map<int, NamedRow>)
  {
    forall c :: c in list && c.id in samplerConnectors ==> samplerConnectors[c.id].stateId in states
  }

  /** The relation names under which the connector tables are stored. */
  const Downstream := "presynaptic_to"
  const Upstream := "postsynaptic_to"

  /** The synapse workflow step and the data its tables loaded. */
  class SynapseWorkflowStep {
    var sampleDownstreamConnectors: bool
    var sampleUpstreamConnectors: bool
    var connectorData: map<string, seq<ConnectorRow>>
    var samplerConnectors: map<int, SamplerConnector>
    var possibleStates: map<int, NamedRow>
    var intervalTreenodes: set<int>

    /** Every stored connector links to a node of the interval. */
    predicate ConnectorsOnInterval()
      reads this
    {
      forall rel :: rel in connectorData ==> forall c :: c in connectorData[rel] ==> c.treenodeId in intervalTreenodes
    }

    /** Both directions sampled, no connector data, no interval nodes. The
        sampler's connector records and the known states are not set by the
        constructor; they stay undefined until the connector table loads and
        the metadata arrive, and start out empty here. */
    constructor ()
      ensures sampleDownstreamConnectors && sampleUpstreamConnectors
      ensures connectorData == map[] && samplerConnectors == map[] && possibleStates == map[]
      ensures intervalTreenodes == {}
      ensures ConnectorsOnInterval()
    {
      sampleDownstreamConnectors := true;
      sampleUpstreamConnectors := true;
      connectorData := map[];
      samplerConnectors := map[];
      possibleStates := map[];
      intervalTreenodes := {};
    }

    /** The connector table's data callback: keep the links whose treenode
        is in the interval, store them under their relation, and index the
        sampler's connector records by connector id. */
    method LoadConnectorTable(relation: string, links: seq<ConnectorRow>, records: seq<SamplerConnector>)
      modifies this
      ensures connectorData == old(connectorData)[relation := IntervalLinks(links, intervalTreenodes)]
      ensures old(ConnectorsOnInterval()) ==> ConnectorsOnInterval()
      ensures samplerConnectors == IndexBy(records, (sc: SamplerConnector) => sc.connectorId)
      ensures forall c :: c in samplerConnectors ==> samplerConnectors[c].connectorId == c
      ensures sampleDownstreamConnectors == old(sampleDownstreamConnectors)
      ensures sampleUpstreamConnectors == old(sampleUpstreamConnectors)
      ensures possibleStates == old(possibleStates) && intervalTreenodes == old(intervalTreenodes)
    {
      connectorData := connectorData[relation := IntervalLinks(links, intervalTreenodes)];
      samplerConnectors := IndexBy(records, (sc: SamplerConnector) => sc.connectorId);
      IndexByStoresRows(records, (sc: SamplerConnector) => sc.connectorId);
    }

    /** Clear the set and fill it with the interval's nodes, as computed by
        the partitioner outside this model. */
    method RegenerateIntervalNodes(intervalNodes: set<int>)
      modifies this
      ensures intervalTreenodes == intervalNodes
      ensures sampleDownstreamConnectors == old(sampleDownstreamConnectors)
      ensures sampleUpstreamConnectors == old(sampleUpstreamConnectors)
      ensures connectorData == old(connectorData) && samplerConnectors == old(samplerConnectors)
      ensures possibleStates == old(possibleStates)
    {
      intervalTreenodes := {};
      intervalTreenodes := intervalTreenodes + intervalNodes;
    }

    /** `handleActiveNodeChange` for the interval with the given boundary
        nodes. */
    method HandleActiveNodeChange(startNodeId: int, endNodeId: int, node: ActiveNode) returns (reaction: Reaction)
      modifies this
      ensures Tracked(intervalTreenodes, reaction) == Track(old(intervalTreenodes), startNodeId, endNodeId, node)
      ensures old(intervalTreenodes) <= intervalTreenodes
      ensures old(ConnectorsOnInterval()) ==> ConnectorsOnInterval()
      ensures sampleDownstreamConnectors == old(sampleDownstreamConnectors)
      ensures sampleUpstreamConnectors == old(sampleUpstreamConnectors)
      ensures connectorData == old(connectorData) && samplerConnectors == old(samplerConnectors)
      ensures possibleStates == old(possibleStates)
    {
      var warn := false;
      var inSet := match node
        case VirtualNode(_, _) => false
        case ConnectorNode(id) => id in intervalTreenodes
        case RealNode(id, _) => id in intervalTreenodes;
      if !inSet {
        match node {
          case ConnectorNode(_) =>
            return Reaction(false, true, false);
          case RealNode(id, parentId) =>
            var parentIsInner := InnerIntervalNode(intervalTreenodes, startNodeId, endNodeId, parentId);
            var isNewInnerIntervalNode := id !in intervalTreenodes && parentIsInner;
            warn := NoParent(parentId) || !isNewInnerIntervalNode;
            if !warn {
              intervalTreenodes := intervalTreenodes + {id};
            }
          case VirtualNode(childId, parentId) =>
            warn := !(childId in intervalTreenodes && parentId in intervalTreenodes);
        }
      }
      reaction := Reaction(warn, false, true);
    }

    /** One loop of `pickRandomSynapse`: push every connector of `list` that
        is not in the "excluded" state onto `connectors`, in order. */
    method PushNotExcluded(connectors: seq<ConnectorRow>, list: seq<ConnectorRow>) returns (pushed: seq<ConnectorRow>)
      requires StatesKnownFor(list, samplerConnectors, possibleStates)
      ensures pushed == connectors + Filter(list, NotExcluded(samplerConnectors, possibleStates))
    {
      ghost var keep := NotExcluded(samplerConnectors, possibleStates);
      pushed := connectors;
      for i := 0 to |list|
        invariant pushed == connectors + Filter(list[..i], keep)
      {
        var connector := list[i];
        var sc := if connector.id in samplerConnectors then Some(samplerConnectors[connector.id]) else None;
        assert connector in list;
        var isExcluded := sc.Some? && possibleStates[sc.value.stateId].name == "excluded";
        assert isExcluded == !keep(connector);
        if !isExcluded {
          pushed := pushed + [connector];
        }
        assert list[..i + 1][..i] == list[..i];
        assert list[..i + 1][i] == connector;
      }
      assert list[..|list|] == list;
    }

    /** `pickRandomSynapse` up to the draw: the downstream connectors, then
        the upstream ones, each list only when its direction is sampled and
        it has been loaded, without the connectors in the "excluded" state. */
    method PickRandomSynapse() returns (r: Outcome<ConnectorRow>)
      requires sampleDownstreamConnectors && Downstream in connectorData ==>
        StatesKnownFor(connectorData[Downstream], samplerConnectors, possibleStates)
      requires sampleUpstreamConnectors && Upstream in connectorData ==>
        StatesKnownFor(connectorData[Upstream], samplerConnectors, possibleStates)
      ensures ConnectorsOnInterval() && r.DrawFrom? ==>
        forall i :: 0 <= i < |r.candidates| ==> r.candidates[i].treenodeId in intervalTreenodes
      ensures var candidates := SynapseCandidates(
          sampleDownstreamConnectors, if Downstream in connectorData then Some(connectorData[Downstream]) else None,
          sampleUpstreamConnectors, if Upstream in connectorData then Some(connectorData[Upstream]) else None,
          samplerConnectors, possibleStates);
        r == if candidates == [] then Warned("No valid connectors found") else DrawFrom(candidates)
    {
      var down := if Downstream in connectorData then Some(connectorData[Downstream]) else None;
      var up := if Upstream in connectorData then Some(connectorData[Upstream]) else None;
      var connectors: seq<ConnectorRow> := [];
      if sampleDownstreamConnectors && down.Some? {
        connectors := PushNotExcluded(connectors, down.value);
      }
      assert connectors == KeptConnectors(sampleDownstreamConnectors, down, samplerConnectors, possibleStates);
      if sampleUpstreamConnectors && up.Some? {
        connectors := PushNotExcluded(connectors, up.value);
      }
      assert connectors == SynapseCandidates(sampleDownstreamConnectors, down, sampleUpstreamConnectors, up,
        samplerConnectors, possibleStates);
      if |connectors| == 0 {
        return Warned("No valid connectors found");
      }
      if ConnectorsOnInterval() {
        SynapseCandidatesMembership(sampleDownstreamConnectors, down, sampleUpstreamConnectors, up,
          samplerConnectors, possibleStates);
      }
      r := DrawFrom(connectors);
    }
  }
}
