/**
 * The records the sampler widget fetches from the server, the dictionaries
 * it builds from them with `result.reduce((o, row) => { o[row.id] = row;
 * return o; }, {})`, and the lookup of the first entry with a given name
 * (`getTypeId`, and the search for the 'completed' state), which visits an
 * object's integer keys in ascending order as `for...in` and `Object.keys`
 * do.
 */
module SamplerRecords {
  import opened Common

  /** An interval of a sampler domain. */
  datatype Interval = Interval(id: int, startNodeId: int, endNodeId: int, stateId: int)

  /** A row with an id and a name: a domain type, an interval state or a
      connector state. */
  datatype NamedRow = NamedRow(id: int, name: string)

  /** A connector of the connector tables, with the treenode it links to. */
  datatype ConnectorRow = ConnectorRow(id: int, treenodeId: int)

  /** The sampler's record of a connector's state. */
  datatype SamplerConnector = SamplerConnector(connectorId: int, stateId: int)

  /** A synaptic partner of a connector. */
  datatype Partner = Partner(partnerId: int, skeletonId: int)

  /** The dictionary `rows.reduce` builds: every row stored under its key, a
      later row replacing an earlier one with the same key. */
  function IndexBy<T>(rows: seq<T>, key: T -> int): (m: map<int, T>)
    ensures forall i :: 0 <= i < |rows| ==> key(rows[i]) in m
    ensures forall k :: k in m ==> exists i :: 0 <= i < |rows| && key(rows[i]) == k
  {
    if rows == [] then map[]
    else
      var last := rows[|rows| - 1];
      var m := IndexBy(rows[..|rows| - 1], key);
      assert forall i :: 0 <= i < |rows| - 1 ==> rows[..|rows| - 1][i] == rows[i];
      m[key(last) := last]
  }

  /** Each entry of the dictionary is the LAST row with that key. */
  lemma {:induction false} IndexByKeepsLastRow<T>(rows: seq<T>, key: T -> int, i: nat)
    requires i < |rows|
    requires forall j :: i < j < |rows| ==> key(rows[j]) != key(rows[i])
    ensures IndexBy(rows, key)[key(rows[i])] == rows[i]
  {
    if i < |rows| - 1 {
      var init := rows[..|rows| - 1];
      assert init[i] == rows[i];
      forall j | i < j < |init| ensures key(init[j]) != key(init[i]) {
        assert init[j] == rows[j];
      }
      IndexByKeepsLastRow(init, key, i);
    }
  }

  /** Every entry of the dictionary is one of the rows, stored under its own
      key. */
  lemma {:induction false} IndexByStoresRows<T>(rows: seq<T>, key: T -> int)
    ensures forall k :: k in IndexBy(rows, key) ==> key(IndexBy(rows, key)[k]) == k
    ensures forall k :: k in IndexBy(rows, key) ==> IndexBy(rows, key)[k] in rows
  {
    if rows != [] {
      var init := rows[..|rows| - 1];
      IndexByStoresRows(init, key);
      forall k | k in IndexBy(init, key) ensures IndexBy(init, key)[k] in rows {
        var r := IndexBy(init, key)[k];
        var j :| 0 <= j < |init| && init[j] == r;
        assert rows[j] == r;
      }
    }
  }

  function RowId(r: NamedRow): int { r.id }

  /** The keys of `m` whose entry has the given name. */
  function KeysNamed(m: map<int, NamedRow>, name: string): (ks: set<int>)
    ensures forall k :: k in ks <==> k in m && m[k].name == name
  {
    set k | k in m && m[k].name == name
  }

  /** The first key, in ascending order, whose entry has the given name, or
      None when no entry has it. */
  function FirstKeyNamed(m: map<int, NamedRow>, name: string): (r: Option<int>)
    ensures r.Some? ==> r.value in m && m[r.value].name == name
    ensures r.Some? ==> forall k :: k in m && k < r.value ==> m[k].name != name
    ensures r.None? <==> forall k :: k in m ==> m[k].name != name
  {
    if exists k :: k in m && m[k].name == name then
      var k :| k in m && m[k].name == name;
      Some(Least(KeysNamed(m, name), k))
    else None
  }

  /** `getTypeId`: walk the keys of the dictionary in ascending order and
      return the first whose entry has the given name; null when none has. */
  method GetTypeId(possibleTypes: map<int, NamedRow>, typeName: string) returns (tid: Option<int>)
    ensures tid == FirstKeyNamed(possibleTypes, typeName)
  {
    var remaining := possibleTypes.Keys;
    while exists k :: k in remaining
      invariant remaining <= possibleTypes.Keys
      invariant forall k :: k in possibleTypes && k !in remaining ==> possibleTypes[k].name != typeName
      invariant forall k, j :: k in possibleTypes && k !in remaining && j in remaining ==> k < j
      decreases |remaining|
    {
      var w :| w in remaining;
      var t := Least(remaining, w);
      if possibleTypes[t].name == typeName {
        FirstKeyNamedIsUnique(possibleTypes, typeName, t);
        return Some(t);
      }
      remaining := remaining - {t};
    }
    tid := None;
  }

  /** The first named key is the only named key with no named key below it. */
  lemma FirstKeyNamedIsUnique(m: map<int, NamedRow>, name: string, t: int)
    requires t in m && m[t].name == name
    requires forall k :: k in m && k < t ==> m[k].name != name
    ensures FirstKeyNamed(m, name) == Some(t)
  {
    var r := FirstKeyNamed(m, name);
    assert r.Some?;
    assert !(r.value < t) && !(t < r.value);
  }

  /** Rows with distinct ids, indexed by id, and then searched by name: the
      search finds the row with the least id among those with that name. */
  lemma FirstKeyNamedOfIndex(rows: seq<NamedRow>, name: string, i: nat)
    requires forall j, j' :: 0 <= j < j' < |rows| ==> rows[j].id != rows[j'].id
    requires i < |rows| && rows[i].name == name
    requires forall j :: 0 <= j < |rows| && rows[j].name == name ==> rows[i].id <= rows[j].id
    ensures FirstKeyNamed(IndexBy(rows, RowId), name) == Some(rows[i].id)
  {
    var m := IndexBy(rows, RowId);
    var t := rows[i].id;
    IndexByStoresRows(rows, RowId);
    IndexByKeepsLastRow(rows, RowId, i);
    assert t in m && m[t] == rows[i];
    forall k | k in m && k < t ensures m[k].name != name {
      assert RowId(m[k]) == k;
      var j :| 0 <= j < |rows| && rows[j] == m[k];
    }
    FirstKeyNamedIsUnique(m, name, t);
  }
}
