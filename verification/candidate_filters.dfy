/**
 * The candidate lists the sampler widget draws a random element from, and
 * the checks that stop it before the draw: intervals not yet completed,
 * connectors not excluded, partners other than the connector's source node.
 * The draw itself (`Math.random`) is left to the caller; these functions end
 * with the list drawn from, or the warning or error that ends the operation.
 */
module CandidateFilters {
  import opened Common
  import opened SamplerRecords

  /** How a pick ends before its random draw: a warning and no draw, an
      exception, or a non-empty list to draw from. */
  datatype Outcome<T> = Warned(message: string) | Failed(error: string) | DrawFrom(candidates: seq<T>)

  /** The id of the first state, in ascending key order, named 'completed':
      `Object.keys(...).some` stops at the first key whose state has that
      name. */
  function CompletedStateId(states: map<int, NamedRow>): (r: Option<int>)
    ensures r.None? <==> forall k :: k in states ==> states[k].name != "completed"
    ensures r.Some? ==> exists k :: (k in states && states[k].name == "completed" && states[k].id == r.value &&
      forall j :: j in states && j < k ==> states[j].name != "completed")
  {
    match FirstKeyNamed(states, "completed")
    case None => None
    case Some(k) => Some(states[k].id)
  }

  function NotInState(stateId: int): Interval -> bool
  {
    (i: Interval) => i.stateId != stateId
  }

  /** `pickRandomInterval` up to the draw. A missing list counts as empty;
      with `ignoreCompleted` the intervals in the 'completed' state are
      dropped, and a missing 'completed' state is an error. */
  function IntervalCandidates(available: Option<seq<Interval>>, ignoreCompleted: bool, states: map<int, NamedRow>): (r: Outcome<Interval>)
    ensures available.None? || available.value == [] ==> r == Warned("No intervals available")
    ensures r.DrawFrom? ==> r.candidates != [] && available.Some?
    ensures r.DrawFrom? ==> forall i :: 0 <= i < |r.candidates| ==> r.candidates[i] in available.value
    ensures !ignoreCompleted && available.Some? && available.value != [] ==> r == DrawFrom(available.value)
    ensures r.Failed? <==> ignoreCompleted && available.Some? && available.value != [] && CompletedStateId(states).None?
    ensures ignoreCompleted && r.DrawFrom? ==>
      forall i :: 0 <= i < |r.candidates| ==> Some(r.candidates[i].stateId) != CompletedStateId(states)
    ensures ignoreCompleted && r.DrawFrom? ==>
      forall i :: 0 <= i < |available.value| && Some(available.value[i].stateId) != CompletedStateId(states) ==>
        available.value[i] in r.candidates
    ensures ignoreCompleted && available.Some? && CompletedStateId(states).Some? ==>
      (r == Warned("All intervals are marked completed") <==>
        available.value != [] && forall i :: 0 <= i < |available.value| ==> Some(available.value[i].stateId) == CompletedStateId(states))
  {
    var intervals := if available.Some? then available.value else [];
    if intervals == [] then Warned("No intervals available")
    else if !ignoreCompleted then DrawFrom(intervals)
    else match CompletedStateId(states)
      case None => Failed("Could not find 'completed' state ID")
      case Some(completed) =>
        var open := Filter(intervals, NotInState(completed));
        assert open != [] ==> exists j :: 0 <= j < |intervals| && intervals[j] == open[0] && intervals[j].stateId != completed;
        if open == [] then Warned("All intervals are marked completed") else DrawFrom(open)
  }

  /** The ids of the start and end nodes of every interval other than the
      one with id `currentId`. */
  function OtherIntervalBoundaries(intervals: seq<Interval>, currentId: int): (b: set<int>)
    ensures forall x :: x in b <==>
      exists j :: 0 <= j < |intervals| && intervals[j].id != currentId &&
        (x == intervals[j].startNodeId || x == intervals[j].endNodeId)
  {
    if intervals == [] then {}
    else
      var init := intervals[..|intervals| - 1];
      var last := intervals[|intervals| - 1];
      assert forall j :: 0 <= j < |init| ==> init[j] == intervals[j];
      OtherIntervalBoundaries(init, currentId) +
        (if last.id != currentId then {last.startNodeId, last.endNodeId} else {})
  }

  /** The boundary set of a concatenation of interval lists is the union of
      their boundary sets: the set does not depend on how the list is split. */
  lemma {:induction false} OtherIntervalBoundariesConcat(a: seq<Interval>, b: seq<Interval>, currentId: int)
    ensures OtherIntervalBoundaries(a + b, currentId) == OtherIntervalBoundaries(a, currentId) + OtherIntervalBoundaries(b, currentId)
  {
    if b == [] {
      assert a + b == a;
    } else {
      var b' := b[..|b| - 1];
      assert (a + b)[..|a + b| - 1] == a + b';
      assert (a + b)[|a + b| - 1] == b[|b| - 1];
      OtherIntervalBoundariesConcat(a, b', currentId);
    }
  }

  function IsNotSource(sourceNodeId: int): Partner -> bool
  {
    (p: Partner) => p.partnerId != sourceNodeId
  }

  /** The partners of a connector without the node the connector was
      reached from; `Filter` keeps their original order. */
  function PartnersExcept(partners: seq<Partner>, sourceNodeId: int): (r: seq<Partner>)
    ensures forall i :: 0 <= i < |r| ==> r[i] in partners && r[i].partnerId != sourceNodeId
    ensures forall i :: 0 <= i < |partners| && partners[i].partnerId != sourceNodeId ==> partners[i] in r
  {
    Filter(partners, IsNotSource(sourceNodeId))
  }

  /** Filtering a list that was already filtered against the same source node
      changes nothing. */
  lemma PartnersExceptIdempotent(partners: seq<Partner>, sourceNodeId: int)
    ensures PartnersExcept(PartnersExcept(partners, sourceNodeId), sourceNodeId) == PartnersExcept(partners, sourceNodeId)
  {
    FilterIdempotent(partners, IsNotSource(sourceNodeId));
  }

  /** `pickRandomPartner` up to the draw. */
  function PartnerCandidates(connectorSelected: bool, partners: Option<seq<Partner>>): (r: Outcome<Partner>)
    ensures !connectorSelected ==> r == Warned("No connector selected")
    ensures connectorSelected && (partners.None? || partners.value == []) ==> r == Warned("No partners found")
    ensures r.DrawFrom? <==> connectorSelected && partners.Some? && partners.value != []
    ensures r.DrawFrom? ==> r.candidates == partners.value
  {
    if !connectorSelected then Warned("No connector selected")
    else if partners.None? || partners.value == [] then Warned("No partners found")
    else DrawFrom(partners.value)
  }

  /** A connector whose sampler record is in a state named "excluded". A
      connector the sampler has no record of is never excluded. */
  predicate IsExcluded(c: ConnectorRow, samplerConnectors: map<int, SamplerConnector>, states: map<int, NamedRow>)
    ensures c.id !in samplerConnectors ==> !IsExcluded(c, samplerConnectors, states)
    ensures IsExcluded(c, samplerConnectors, states) ==>
      samplerConnectors[c.id].stateId in states && states[samplerConnectors[c.id].stateId].name == "excluded"
  {
    c.id in samplerConnectors && samplerConnectors[c.id].stateId in states &&
    states[samplerConnectors[c.id].stateId].name == "excluded"
  }

  function NotExcluded(samplerConnectors: map<int, SamplerConnector>, states: map<int, NamedRow>): ConnectorRow -> bool
  {
    (c: ConnectorRow) => !IsExcluded(c, samplerConnectors, states)
  }

  /** The part of one connector list `pickRandomSynapse` keeps: nothing when
      the direction is switched off or its list is missing, otherwise the
      connectors not excluded, in order. */
  function KeptConnectors(sample: bool, list: Option<seq<ConnectorRow>>,
                          samplerConnectors: map<int, SamplerConnector>, states: map<int, NamedRow>): (r: seq<ConnectorRow>)
    ensures !sample || list.None? ==> r == []
    ensures forall x :: x in r ==> !IsExcluded(x, samplerConnectors, states) && list.Some? && x in list.value
    ensures sample && list.Some? ==> forall i :: 0 <= i < |list.value| && !IsExcluded(list.value[i], samplerConnectors, states) ==>
      list.value[i] in r
  {
    if sample && list.Some? then Filter(list.value, NotExcluded(samplerConnectors, states)) else []
  }

  /** The connectors `pickRandomSynapse` draws from: the kept downstream
      connectors followed by the kept upstream ones. */
  function SynapseCandidates(sampleDown: bool, down: Option<seq<ConnectorRow>>,
                             sampleUp: bool, up: Option<seq<ConnectorRow>>,
                             samplerConnectors: map<int, SamplerConnector>, states: map<int, NamedRow>): (r: seq<ConnectorRow>)
    ensures !sampleDown && !sampleUp ==> r == []
    ensures |r| <= (if down.Some? then |down.value| else 0) + (if up.Some? then |up.value| else 0)
    ensures forall x :: x in r ==> !IsExcluded(x, samplerConnectors, states)
  {
    KeptConnectors(sampleDown, down, samplerConnectors, states) + KeptConnectors(sampleUp, up, samplerConnectors, states)
  }

  /** Every candidate comes from a list that is switched on and is not
      excluded; every connector of a switched-on list that is not excluded is
      a candidate; and the downstream candidates come first, in their order. */
  lemma SynapseCandidatesMembership(sampleDown: bool, down: Option<seq<ConnectorRow>>,
                                    sampleUp: bool, up: Option<seq<ConnectorRow>>,
                                    scs: map<int, SamplerConnector>, states: map<int, NamedRow>)
    ensures var r := SynapseCandidates(sampleDown, down, sampleUp, up, scs, states);
      forall i :: 0 <= i < |r| ==>
        !IsExcluded(r[i], scs, states) &&
        ((sampleDown && down.Some? && r[i] in down.value) || (sampleUp && up.Some? && r[i] in up.value))
    ensures var r := SynapseCandidates(sampleDown, down, sampleUp, up, scs, states);
      sampleDown && down.Some? ==>
        forall i :: 0 <= i < |down.value| && !IsExcluded(down.value[i], scs, states) ==> down.value[i] in r
    ensures var r := SynapseCandidates(sampleDown, down, sampleUp, up, scs, states);
      sampleUp && up.Some? ==>
        forall i :: 0 <= i < |up.value| && !IsExcluded(up.value[i], scs, states) ==> up.value[i] in r
    ensures var r := SynapseCandidates(sampleDown, down, sampleUp, up, scs, states);
      sampleDown && down.Some? ==> r[..|KeptConnectors(true, down, scs, states)|] == Filter(down.value, NotExcluded(scs, states))
  {
    var a := KeptConnectors(sampleDown, down, scs, states);
    var b := KeptConnectors(sampleUp, up, scs, states);
    var r := a + b;
    forall i | 0 <= i < |r|
      ensures !IsExcluded(r[i], scs, states) &&
        ((sampleDown && down.Some? && r[i] in down.value) || (sampleUp && up.Some? && r[i] in up.value))
    {
      if i < |a| {
        assert r[i] == a[i] && a[i] in a;
      } else {
        assert r[i] == b[i - |a|] && b[i - |a|] in b;
      }
    }
    if sampleDown && down.Some? {
      assert r[..|a|] == a;
    }
  }
}
