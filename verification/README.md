# Reconstruction sampler helpers and skeleton-summary bookkeeping of CATMAID

This project models two parts of CATMAID in Dafny.

**The reconstruction sampler widget.** This covers the deterministic rules buried in the widget's callbacks:
- the `toPaddedString`/`formatDate` timestamp rendering;
- the X/Y/Z "interpolatable sections" inputs, which are split on commas, trimmed, read with `parseInt` and fail with "No number";
- the completion checks of the five workflow steps;
- the interval-length and interval-error inputs;
- the guard chains of `createNewIntervals` and `previewIntervals`;
- the dictionaries built with `reduce`, and `getTypeId`;
- the candidate lists of `pickRandomInterval`, `pickRandomSynapse` and `pickRandomPartner` up to the random draw;
- the boundary set of the other intervals;
- the interval-membership tracker of the synapse step (`handleActiveNodeChange`), a class whose set field grows in place.

**The skeleton-summary triggers of migration 0035.** This covers:
- the statement-level insert, edit and delete triggers, which keep `catmaid_skeleton_summary` (node count, cable length, earliest creation time, latest edition time, per skeleton) and `treenode_edge` (one edge row per node) up to date;
- the data migration that fills the summary table initially.

The tables are maps, keyed by skeleton id and by treenode id. The treenode table is a sequence of rows. Each trigger is a function from the old tables to the new ones. The class `SummaryTables.SkeletonSummaryTables` holds both tables as fields, and its methods replace them as the triggers do.

Modules:

| file | module | what it holds |
|---|---|---|
| `common.dfy` | `Common` | `Option`, an order-preserving `Filter`, the least element of an integer set |
| `js_values.dfy` | `JsValues` | JavaScript values and `ToBoolean` |
| `decimal.dfy` | `Decimal` | decimal notation of integers and the value of a digit run |
| `date_format.dfy` | `DateFormat` | `toPaddedString`, `formatDate` |
| `interpolatable_list.dfy` | `InterpolatableList` | `trim`, `split`, `parseInt`, the list inputs' `onchange` handlers |
| `workflow_state.dfy` | `WorkflowState` | the widget's state entries, `isComplete`, the numeric inputs, the guard chains |
| `sampler_records.dfy` | `SamplerRecords` | fetched records, `reduce` into dictionaries, `getTypeId` |
| `candidate_filters.dfy` | `CandidateFilters` | candidate lists before the random draw, the other intervals' boundaries |
| `synapse_step.dfy` | `SynapseStep` | `handleActiveNodeChange` and `pickRandomSynapse` on the synapse step's fields |
| `summary_rows.dfy` | `SummaryRows` | table rows, edge ends, group aggregates, the two ON CONFLICT rules |
| `insert_trigger.dfy` | `InsertTrigger` | `on_insert_treenode_update_summary_and_edges` |
| `edit_trigger.dfy` | `EditTrigger` | `on_edit_treenode_update_summary_and_edges` |
| `delete_trigger.dfy` | `DeleteTrigger` | `on_delete_treenode_update_summary_and_edges` |
| `initial_fill.dfy` | `InitialFill` | the initial `INSERT INTO catmaid_skeleton_summary` |
| `summary_tables.dfy` | `SummaryTables` | the two tables as mutable state |

## Model

| member | source | states |
|---|---|---|
| Common.Filter | django/applications/catmaid/static/js/widgets/reconstruction-sampler.js:2290-2292 | `Array.prototype.filter`: the result keeps only elements of the input that satisfy the predicate, and keeps every such element |
| Common.FilterConcat | django/applications/catmaid/static/js/widgets/reconstruction-sampler.js:2102-2122 | filtering two lists one after the other is filtering their concatenation, with order kept |
| Common.FilterIdempotent | django/applications/catmaid/static/js/widgets/reconstruction-sampler.js:2290-2292 | filtering twice with the same predicate equals filtering once |
| Common.Least | django/applications/catmaid/static/js/widgets/reconstruction-sampler.js:1045 | the first key a `for...in` over integer keys visits is in the set and below every other key |
| Decimal.NatToString | django/applications/catmaid/static/js/widgets/reconstruction-sampler.js:167 | the string form of a non-negative integer is a non-empty run of digits without a leading zero, of length 1 exactly for values below ten |
| Decimal.DecimalValueOfNatToString | django/applications/catmaid/static/js/widgets/reconstruction-sampler.js:167 | reading the decimal notation of `n` gives `n` back |
| DateFormat.ToPaddedString | django/applications/catmaid/static/js/widgets/reconstruction-sampler.js:166-168 | values below ten get exactly one leading '0' and two characters; other values are their plain notation; the result always reads back as the value |
| DateFormat.FormatDateLayout | django/applications/catmaid/static/js/widgets/reconstruction-sampler.js:170-179 | for a four-digit year and in-range fields the rendering is `YYYY-MM-DD HH:MM:SS`, 19 characters long with separators at 4, 7, 10, 13 and 16; each field reads back as its component, and the month as the UTC month index plus one |
| DateFormat.FormatDate | django/applications/catmaid/static/js/widgets/reconstruction-sampler.js:170-179 | the rendering starts with the year's notation and a '-', and is 15 characters longer than the year when every other field is below 100 |
| InterpolatableList.TrimStartSkipsWhitespace | django/applications/catmaid/static/js/widgets/reconstruction-sampler.js:293 | `trim` removes exactly the leading run of ECMAScript whitespace |
| InterpolatableList.TrimEndSkipsWhitespace | django/applications/catmaid/static/js/widgets/reconstruction-sampler.js:293 | `trim` removes exactly the trailing run of whitespace |
| InterpolatableList.Trim | django/applications/catmaid/static/js/widgets/reconstruction-sampler.js:293 | the trimmed text is no longer than the input and neither starts nor ends with whitespace |
| InterpolatableList.TrimIdempotent | django/applications/catmaid/static/js/widgets/reconstruction-sampler.js:293 | trimming twice is trimming once |
| InterpolatableList.Split | django/applications/catmaid/static/js/widgets/reconstruction-sampler.js:291 | `split(',')` yields one more field than there are commas, and no field holds a comma |
| InterpolatableList.JoinSplit | django/applications/catmaid/static/js/widgets/reconstruction-sampler.js:291 | joining the split fields with commas gives the text back |
| InterpolatableList.SplitJoin | django/applications/catmaid/static/js/widgets/reconstruction-sampler.js:291 | comma-free fields joined with commas split back into the same fields, in order |
| InterpolatableList.DigitPrefix | django/applications/catmaid/static/js/widgets/reconstruction-sampler.js:297 | the run `parseInt` reads is the longest all-digit prefix |
| InterpolatableList.ParseInt | django/applications/catmaid/static/js/widgets/reconstruction-sampler.js:297 | `parseInt` is NaN exactly when no digit follows the leading whitespace and optional sign; a negative result comes from a leading '-' |
| InterpolatableList.ParseIntReadsInteger | django/applications/catmaid/static/js/widgets/reconstruction-sampler.js:297 | `parseInt` of an integer's notation, followed by anything that is not a digit, is that integer |
| InterpolatableList.ParseFields | django/applications/catmaid/static/js/widgets/reconstruction-sampler.js:291-302 | the mapper succeeds exactly when every field parses; it then yields one entry per field, in order, each field's value (blank fields stay "") |
| InterpolatableList.ParseList | django/applications/catmaid/static/js/widgets/reconstruction-sampler.js:291-302 | a parsed list has one entry per comma-separated field |
| InterpolatableList.EmptyTextGivesOneBlank | django/applications/catmaid/static/js/widgets/reconstruction-sampler.js:291-296 | empty text yields a list of one blank entry, not an empty list |
| InterpolatableList.DisplayIsJoin | django/applications/catmaid/static/js/widgets/reconstruction-sampler.js:284 | `join(", ")` is the comma join of the entries' texts, each after the first preceded by a space |
| InterpolatableList.Display | django/applications/catmaid/static/js/widgets/reconstruction-sampler.js:284 | the shown text of a non-empty list has exactly one comma between each two entries |
| InterpolatableList.DisplayFieldsParse | django/applications/catmaid/static/js/widgets/reconstruction-sampler.js:293-301 | each displayed field is comma-free and parses back to its entry |
| InterpolatableList.EntryValues | django/applications/catmaid/static/js/widgets/reconstruction-sampler.js:284 | the stored list has one value per entry: a blank as "", an integer as its number |
| InterpolatableList.ParseListOfDisplay | django/applications/catmaid/static/js/widgets/reconstruction-sampler.js:284-306 | the text an input shows for a non-empty list parses back to that list |
| InterpolatableList.ApplyInputAsWritten | django/applications/catmaid/static/js/widgets/reconstruction-sampler.js:344-362 | as written the Z list never changes, and a parsed Z edit is stored as the Y list; a Z edit keeps the X list, keeps the Y list on "No number", and leaves the X and Y error classes alone; the X and Y handlers behave as intended; the error class is shown exactly when a field has no number |
| InterpolatableList.HandleChange | django/applications/catmaid/static/js/widgets/reconstruction-sampler.js:288-306 | one handler: the error class is shown iff some field has no number; the target list becomes the parsed list or stays; other lists and error classes are untouched |
| InterpolatableList.ApplyInput | django/applications/catmaid/static/js/widgets/reconstruction-sampler.js:288-306 | an edit stores the parsed list in its own axis or, on "No number", keeps the list and shows the error class; the other inputs' lists and error classes are untouched |
| InterpolatableList.ZInputOverwritesY | django/applications/catmaid/static/js/widgets/reconstruction-sampler.js:347 | typing "5" into Z replaces the Y list and keeps the Z list as written; the corrected handler does the opposite |
| WorkflowState.CompletionIsPresenceExceptForPartner | django/applications/catmaid/static/js/widgets/reconstruction-sampler.js:2246-2247 | a present but falsy entry completes the backbone, domain, interval and synapse steps (`undefined !==`, lines 199, 814, 1277, 1747) but not the partner step (`!!`); the synapse step needs both its entries |
| WorkflowState.IsComplete | django/applications/catmaid/static/js/widgets/reconstruction-sampler.js:1747-1750 | a complete synapse step has both its connector and its source node; a complete partner step (lines 2246-2248) has a present, non-null selection |
| WorkflowState.JsNumber | django/applications/catmaid/static/js/widgets/reconstruction-sampler.js:247 | `Number(text)` is a number or NaN, and blank text reads as 0 |
| WorkflowState.JsNumberOfInteger | django/applications/catmaid/static/js/widgets/reconstruction-sampler.js:247 | `Number` reads an integer's decimal notation as that integer |
| WorkflowState.JsNumberAgreesWithParseInt | django/applications/catmaid/static/js/widgets/reconstruction-sampler.js:247 | where `Number` reads a number from non-blank text, `parseInt` reads the same number from it |
| WorkflowState.SetIntervalLengthAsWritten | django/applications/catmaid/static/js/widgets/reconstruction-sampler.js:235-237 | stores the text itself, which is truthy exactly when non-empty; nothing else changes |
| WorkflowState.SetIntervalLength | django/applications/catmaid/static/js/widgets/reconstruction-sampler.js:235-237 | stores `Number(text)`, truthy exactly for a non-zero number; nothing else changes |
| WorkflowState.SetIntervalError | django/applications/catmaid/static/js/widgets/reconstruction-sampler.js:245-248 | stores `Number(text)`, truthy exactly for a non-zero number; nothing else changes |
| WorkflowState.FirstFailure | django/applications/catmaid/static/js/widgets/reconstruction-sampler.js:1443-1480 | a chain proceeds iff every guard passes; otherwise it stops at a failing guard with that guard's warning, and every guard before it passes |
| WorkflowState.StopsAtFirstFailing | django/applications/catmaid/static/js/widgets/reconstruction-sampler.js:1443-1480 | the stop is at the first failing guard |
| WorkflowState.ProceedsIffSevenPass | django/applications/catmaid/static/js/widgets/reconstruction-sampler.js:1443-1480 | a seven-guard chain proceeds iff all seven pass |
| WorkflowState.CreateIntervalsGuardsAsWritten | django/applications/catmaid/static/js/widgets/reconstruction-sampler.js:1443-1480 | seven guards; the length guard tests the interval length; the X, Y and Z guards carry their warnings but all three test the X list |
| WorkflowState.CreateIntervalsGuards | django/applications/catmaid/static/js/widgets/reconstruction-sampler.js:1443-1480 | the same first five guards, then a Y guard testing the Y list and a Z guard testing the Z list |
| WorkflowState.PreviewGuardsAsWritten | django/applications/catmaid/static/js/widgets/reconstruction-sampler.js:596-633 | seven guards; the fourth tests that the interpolation flag is present; the X, Y and Z guards all test the X list |
| WorkflowState.PreviewGuards | django/applications/catmaid/static/js/widgets/reconstruction-sampler.js:596-633 | the same first five guards, then Y and Z guards testing their own lists |
| WorkflowState.CreateIntervalsAsWrittenIgnoresYZ | django/applications/catmaid/static/js/widgets/reconstruction-sampler.js:1443-1480 | as written `createNewIntervals` proceeds iff skeleton, domain, interval length, interval error and X list are truthy; Y and Z play no part |
| WorkflowState.CreateIntervalsNeedsAllLists | django/applications/catmaid/static/js/widgets/reconstruction-sampler.js:1466-1480 | with each list guard testing its own list it proceeds iff all seven entries are truthy |
| WorkflowState.PreviewAsWrittenIgnoresYZ | django/applications/catmaid/static/js/widgets/reconstruction-sampler.js:596-633 | as written `previewIntervals` proceeds iff skeleton, interval length, interval error and X list are truthy and the interpolation flag is present |
| WorkflowState.PreviewNeedsAllLists | django/applications/catmaid/static/js/widgets/reconstruction-sampler.js:619-633 | corrected, it additionally needs the Y and Z lists |
| WorkflowState.MissingYListGoesUnnoticed | django/applications/catmaid/static/js/widgets/reconstruction-sampler.js:1471-1475 | with the Y list missing, both operations go on as written, and both stop at guard 5 with the Y warning once corrected |
| WorkflowState.ZeroIntervalLengthStops | django/applications/catmaid/static/js/widgets/reconstruction-sampler.js:1454-1458 | a numeric 0 interval length stops `createNewIntervals` at the length guard, so 0 is rejected |
| WorkflowState.TypedZeroLengthPassesGuard | django/applications/catmaid/static/js/widgets/reconstruction-sampler.js:236 | "0" typed into the interval length input passes the length guard as written, and is stopped there when `Number` is applied |
| SamplerRecords.IndexBy | django/applications/catmaid/static/js/widgets/reconstruction-sampler.js:1036-1039 | every row's key is in the dictionary and every key comes from a row |
| SamplerRecords.IndexByKeepsLastRow | django/applications/catmaid/static/js/widgets/reconstruction-sampler.js:1036-1039 | the entry under a key is the last row with that key |
| SamplerRecords.IndexByStoresRows | django/applications/catmaid/static/js/widgets/reconstruction-sampler.js:1888-1891 | every entry is one of the rows, stored under its own key |
| SamplerRecords.FirstKeyNamed | django/applications/catmaid/static/js/widgets/reconstruction-sampler.js:1044-1053 | the result is the least key whose entry has the name, or None iff no entry has it |
| SamplerRecords.GetTypeId | django/applications/catmaid/static/js/widgets/reconstruction-sampler.js:1044-1053 | the `for...in` loop with early return yields the first key in ascending order whose entry has the name, null when none has |
| SamplerRecords.FirstKeyNamedOfIndex | django/applications/catmaid/static/js/widgets/reconstruction-sampler.js:1036-1053 | rows with distinct ids, indexed by id and then searched by name, give the least id among the rows with that name |
| CandidateFilters.CompletedStateId | django/applications/catmaid/static/js/widgets/reconstruction-sampler.js:1602-1612 | None iff no state is named 'completed'; otherwise the id of the state under the least key named 'completed', where `some` stops |
| CandidateFilters.IntervalCandidates | django/applications/catmaid/static/js/widgets/reconstruction-sampler.js:1592-1627 | missing or empty list: "No intervals available"; without `ignoreCompleted` the whole list; with it, a missing 'completed' state is an error, no completed interval survives and every other interval does, and "All intervals are marked completed" exactly when all are completed |
| CandidateFilters.OtherIntervalBoundaries | django/applications/catmaid/static/js/widgets/reconstruction-sampler.js:1771-1777 | the set holds exactly the start and end node ids of the intervals whose id differs from the current one |
| CandidateFilters.OtherIntervalBoundariesConcat | django/applications/catmaid/static/js/widgets/reconstruction-sampler.js:1771-1777 | the boundary set of a concatenation is the union of the parts' sets |
| CandidateFilters.PartnersExcept | django/applications/catmaid/static/js/widgets/reconstruction-sampler.js:2290-2292 | the kept partners are exactly the connector's partners other than the source node |
| CandidateFilters.PartnersExceptIdempotent | django/applications/catmaid/static/js/widgets/reconstruction-sampler.js:2290-2292 | filtering an already filtered partner list again changes nothing |
| CandidateFilters.PartnerCandidates | django/applications/catmaid/static/js/widgets/reconstruction-sampler.js:2406-2416 | "No connector selected" without a connector, "No partners found" for a missing or empty list, otherwise the partner list |
| CandidateFilters.IsExcluded | django/applications/catmaid/static/js/widgets/reconstruction-sampler.js:2106-2108 | a connector without a sampler record is never excluded; an excluded one has a record whose known state is named "excluded" |
| CandidateFilters.KeptConnectors | django/applications/catmaid/static/js/widgets/reconstruction-sampler.js:2102-2111 | nothing from a direction that is off or a list that is missing; otherwise exactly the list's non-excluded connectors |
| CandidateFilters.SynapseCandidates | django/applications/catmaid/static/js/widgets/reconstruction-sampler.js:2100-2122 | no candidates when both directions are off; never more than the two lists hold; none excluded |
| CandidateFilters.SynapseCandidatesMembership | django/applications/catmaid/static/js/widgets/reconstruction-sampler.js:2102-2122 | every candidate is non-excluded and comes from a sampled list; every non-excluded connector of a sampled list is a candidate; the downstream candidates come first, in their order |
| SynapseStep.TrackGrowsOnlyByNewInnerNode | django/applications/catmaid/static/js/widgets/reconstruction-sampler.js:2175-2190 | the set only grows, by at most the active node's id, and grows exactly for a real node not in the set with a parent that is an inner node of the interval; then no warning |
| SynapseStep.TrackUnchangedCases | django/applications/catmaid/static/js/widgets/reconstruction-sampler.js:2164-2209 | a known node: no warning; an unknown connector: tables refreshed, no highlight, no warning; a virtual node warns unless its real child and parent are both in the set |
| SynapseStep.Track | django/applications/catmaid/static/js/widgets/reconstruction-sampler.js:2164-2209 | the set never shrinks; the tables are refreshed exactly for an unknown connector, which is neither highlighted nor warned about; every other node is highlighted |
| SynapseStep.Replay | django/applications/catmaid/static/js/widgets/reconstruction-sampler.js:2164-2209 | over a run of active-node changes the set never shrinks, and a run without real nodes leaves it as it was |
| SynapseStep.ReplayGrowsFromRealNodes | django/applications/catmaid/static/js/widgets/reconstruction-sampler.js:2188 | over any run of active-node changes the set keeps every id, and each gained id is that of a real node that became active |
| SynapseStep.SynapseWorkflowStep.constructor | django/applications/catmaid/static/js/widgets/reconstruction-sampler.js:1685-1691 | both directions sampled, no connector data, empty interval set, so every stored connector lies on the interval; the sampler records and states, which the source leaves undefined, start empty |
| SynapseStep.SynapseWorkflowStep.LoadConnectorTable | django/applications/catmaid/static/js/widgets/reconstruction-sampler.js:1866-1891 | stores under the relation exactly the links whose treenode is in the interval, and the sampler records indexed by connector id; stored connectors stay on the interval; nothing else changes |
| SynapseStep.IntervalLinks | django/applications/catmaid/static/js/widgets/reconstruction-sampler.js:1866-1869 | keeps exactly the links whose treenode is one of the interval's nodes |
| SynapseStep.SynapseWorkflowStep.RegenerateIntervalNodes | django/applications/catmaid/static/js/widgets/reconstruction-sampler.js:1833-1836 | the set becomes exactly the given interval nodes; nothing else changes |
| SynapseStep.SynapseWorkflowStep.HandleActiveNodeChange | django/applications/catmaid/static/js/widgets/reconstruction-sampler.js:2164-2209 | the new set and the reaction are those of `Track` on the old set; the set never shrinks; no other field changes |
| SynapseStep.SynapseWorkflowStep.PushNotExcluded | django/applications/catmaid/static/js/widgets/reconstruction-sampler.js:2104-2111 | the loop appends exactly the non-excluded connectors of the list, in order, given that every listed connector with a sampler record has a known state |
| SynapseStep.SynapseWorkflowStep.PickRandomSynapse | django/applications/catmaid/static/js/widgets/reconstruction-sampler.js:2092-2127 | the candidates are the synapse candidate list; an empty list ends with "No valid connectors found"; with the stored connectors on the interval, every candidate links to a node of the interval |
| SummaryRows.FindNode | django/applications/catmaid/migrations/0035_add_skeleton_summary_table.py:66-67 | the row found has the id and is in the table; None iff no row has the id; with distinct ids it is the row |
| SummaryRows.EdgeEnd | django/applications/catmaid/migrations/0035_add_skeleton_summary_table.py:66-67 | the join partner is a row of the table: the parent for a node with a parent, the node itself for a root |
| SummaryRows.Earliest | django/applications/catmaid/migrations/0035_add_skeleton_summary_table.py:77 | `MIN(creation_time)` is a creation time of the group and below all of them |
| SummaryRows.Latest | django/applications/catmaid/migrations/0035_add_skeleton_summary_table.py:78 | `MAX(edition_time)` is an edition time of the group and above all of them |
| SummaryRows.GroupProject | django/applications/catmaid/migrations/0035_add_skeleton_summary_table.py:74 | the group's project is the project of one of its rows |
| SummaryRows.Merge | django/applications/catmaid/migrations/0035_add_skeleton_summary_table.py:82-99 | no row: the group's values; existing row: project kept, update time `now()`, counts and cable added, last edition time GREATEST; the insert rule takes LEAST of the creation times, the edit rule (lines 248-262) keeps it |
| SummaryRows.Upsert | django/applications/catmaid/migrations/0035_add_skeleton_summary_table.py:82-99 | the keys become the old keys plus the grouped skeletons; rows of other skeletons are untouched |
| SummaryRows.NodeSumConcat | django/applications/catmaid/migrations/0035_add_skeleton_summary_table.py:231-246 | `SUM` over a `UNION ALL` is the sum of the parts' sums |
| InsertTrigger.InsertFacts | django/applications/catmaid/migrations/0035_add_skeleton_summary_table.py:59-67 | `new_edges` has at most one row per inserted node |
| InsertTrigger.InsertFactsMembers | django/applications/catmaid/migrations/0035_add_skeleton_summary_table.py:59-67 | its rows are exactly the edges of the inserted nodes whose end row is found |
| InsertTrigger.NewEdgeRows | django/applications/catmaid/migrations/0035_add_skeleton_summary_table.py:68-71 | every new edge row is keyed by an inserted node's id |
| InsertTrigger.NewEdgeRowsStore | django/applications/catmaid/migrations/0035_add_skeleton_summary_table.py:68-71 | each inserted node with a found end gets an edge row with its project and edge length; the others get none |
| InsertTrigger.EdgesAfterInsert | django/applications/catmaid/migrations/0035_add_skeleton_summary_table.py:68-71 | existing edge rows are kept and every added row belongs to an inserted node |
| InsertTrigger.InsertFactSums | django/applications/catmaid/migrations/0035_add_skeleton_summary_table.py:72-81 | the group of a skeleton counts its inserted nodes and sums their edge lengths |
| InsertTrigger.InsertSkeletons | django/applications/catmaid/migrations/0035_add_skeleton_summary_table.py:72-81 | the grouped skeletons are those of inserted nodes whose end is found |
| InsertTrigger.FactBounds | django/applications/catmaid/migrations/0035_add_skeleton_summary_table.py:76-77 | a group's MIN creation and MAX edition are attained by inserted nodes and bound all of them |
| InsertTrigger.InsertCreatesRow | django/applications/catmaid/migrations/0035_add_skeleton_summary_table.py:82-89 | a skeleton without a row gets one: inserted node count, their edge lengths, `now()`, their project, earliest creation and latest edition time |
| InsertTrigger.InsertMergesRow | django/applications/catmaid/migrations/0035_add_skeleton_summary_table.py:90-99 | an existing row gets count and cable added, keeps its project, takes `now()`, LEAST creation and GREATEST edition time |
| InsertTrigger.SummaryAfterInsert | django/applications/catmaid/migrations/0035_add_skeleton_summary_table.py:72-99 | no row is removed; every new row is for a skeleton of an inserted node; rows of skeletons without inserted nodes are untouched |
| InsertTrigger.RootAddsNoCable | django/applications/catmaid/migrations/0035_add_skeleton_summary_table.py:66-67 | a root joins itself: it counts as one node with a zero-length edge |
| EditTrigger.FindUpdated | django/applications/catmaid/migrations/0035_add_skeleton_summary_table.py:157-158 | the new row with the id, None iff no updated node has it |
| EditTrigger.ParentRows | django/applications/catmaid/migrations/0035_add_skeleton_summary_table.py:122-143 | every row of `updated_parent_edge_data` belongs to an updated node |
| EditTrigger.ParentRowsFromUpdates | django/applications/catmaid/migrations/0035_add_skeleton_summary_table.py:122-143 | each such row is an updated node whose edge changed and whose end is found, with its new skeleton and its old one |
| EditTrigger.ChildRows | django/applications/catmaid/migrations/0035_add_skeleton_summary_table.py:144-161 | the anti-joined children keep their skeleton and are not updated nodes themselves |
| EditTrigger.UpdatedEdges | django/applications/catmaid/migrations/0035_add_skeleton_summary_table.py:162-176 | an edge changes skeleton only for an updated node |
| EditTrigger.OldEdgeFacts | django/applications/catmaid/migrations/0035_add_skeleton_summary_table.py:177-187 | at most one row per changed edge and one for each that has an edge row; every row takes one node and the stored length out of the old skeleton, under the old times |
| EditTrigger.NewEdgeFacts | django/applications/catmaid/migrations/0035_add_skeleton_summary_table.py:198-203 | one `+1` row per changed edge with its new skeleton and length |
| EditTrigger.EdgesAfterEdit | django/applications/catmaid/migrations/0035_add_skeleton_summary_table.py:188-197 | no edge row is added or removed, projects are kept, and only the changed edges' rows change |
| EditTrigger.NewLength | django/applications/catmaid/migrations/0035_add_skeleton_summary_table.py:188-197 | the new length for an id is that of a changed edge with the id |
| EditTrigger.NewLengthIsRow | django/applications/catmaid/migrations/0035_add_skeleton_summary_table.py:188-197 | the first changed edge with an id supplies the new length for it |
| EditTrigger.EdgesAfterEditStoresLength | django/applications/catmaid/migrations/0035_add_skeleton_summary_table.py:188-197 | with distinct ids, the stored edge of every changed edge takes that edge's new length and keeps its project |
| EditTrigger.SecondBranchEmpty | django/applications/catmaid/migrations/0035_add_skeleton_summary_table.py:204-212 | the second `new_edge` branch never yields a row |
| EditTrigger.EditFacts | django/applications/catmaid/migrations/0035_add_skeleton_summary_table.py:177-246 | the rows `summary_update_delta` groups are the old edges followed by the first `new_edge` branch; the second branch adds nothing |
| EditTrigger.OldNewNodeSum | django/applications/catmaid/migrations/0035_add_skeleton_summary_table.py:213-246 | old (-1) and new (+1) rows sum, per skeleton, to the edges moved in minus those moved out |
| EditTrigger.EditNodeDelta | django/applications/catmaid/migrations/0035_add_skeleton_summary_table.py:213-246 | an edit's count delta for a skeleton is edges moved in minus moved out, when every changed edge has an edge row |
| EditTrigger.NoMovesNoneMoved | django/applications/catmaid/migrations/0035_add_skeleton_summary_table.py:213-246 | without moves nothing moves in or out |
| EditTrigger.ParentRowsKeepSkeleton | django/applications/catmaid/migrations/0035_add_skeleton_summary_table.py:143-161 | when no updated node changes skeleton, no changed edge does; children never do |
| EditTrigger.MovedConcat | django/applications/catmaid/migrations/0035_add_skeleton_summary_table.py:162-176 | moves over `UNION ALL` add up |
| EditTrigger.EditRowSums | django/applications/catmaid/migrations/0035_add_skeleton_summary_table.py:248-262 | an existing row absorbs the edit's count and cable sums |
| EditTrigger.SummaryAfterEdit | django/applications/catmaid/migrations/0035_add_skeleton_summary_table.py:248-262 | no row is removed, and every existing row keeps its project and original creation time |
| EditTrigger.EditWithoutMovesKeepsCount | django/applications/catmaid/migrations/0035_add_skeleton_summary_table.py:213-262 | an edit that moves no node between skeletons keeps every existing row's node count (children contribute -1 and +1 to the same skeleton) |
| EditTrigger.MovedNodeCounts | django/applications/catmaid/migrations/0035_add_skeleton_summary_table.py:213-262 | a node moved from one skeleton to another lowers the old skeleton's count by one and raises the new one's by one |
| EditTrigger.EditKeepsCreationTime | django/applications/catmaid/migrations/0035_add_skeleton_summary_table.py:256-262 | the edit's conflict rule keeps the original creation time and project, and the last edition time never decreases |
| EditTrigger.OldNewLengthSum | django/applications/catmaid/migrations/0035_add_skeleton_summary_table.py:213-246 | old and new lengths cancel when nothing moves and no length changes |
| EditTrigger.EditCableDeltaZero | django/applications/catmaid/migrations/0035_add_skeleton_summary_table.py:213-246 | when no node moves and every changed edge keeps its stored length, the summed length delta of every skeleton is zero |
| EditTrigger.OldNewLengthDelta | django/applications/catmaid/migrations/0035_add_skeleton_summary_table.py:177-246 | per skeleton, the old and new length rows sum to the new lengths charged to it minus the stored lengths taken from it |
| EditTrigger.EditCableDelta | django/applications/catmaid/migrations/0035_add_skeleton_summary_table.py:213-246 | for every batch, a skeleton's summed length delta is the new lengths of the changed edges now in it minus the stored lengths of those that were in it |
| EditTrigger.EditRowCable | django/applications/catmaid/migrations/0035_add_skeleton_summary_table.py:213-262 | an existing row's cable length after the edit is its old one plus that delta |
| EditTrigger.EditWithoutEdgeChangeKeepsCable | django/applications/catmaid/migrations/0035_add_skeleton_summary_table.py:213-262 | such an edit keeps every existing row's cable length |
| DeleteTrigger.DeleteFacts | django/applications/catmaid/migrations/0035_add_skeleton_summary_table.py:278-287 | at most one row per deleted node (those with an edge row) |
| DeleteTrigger.OfProject | django/applications/catmaid/migrations/0035_add_skeleton_summary_table.py:293 | only rows of the project are kept |
| DeleteTrigger.SummaryAfterDelete | django/applications/catmaid/migrations/0035_add_skeleton_summary_table.py:288-293 | no row is created or removed, and project and all three time columns stay as they were |
| DeleteTrigger.DeletedRow | django/applications/catmaid/migrations/0035_add_skeleton_summary_table.py:288-293 | a row loses the node count and length sums of its own project's group for its skeleton (zero without one); its other columns stay |
| DeleteTrigger.EdgesAfterDelete | django/applications/catmaid/migrations/0035_add_skeleton_summary_table.py:295-299 | an edge row is removed iff a deleted node has its id and project; the others are unchanged |
| DeleteTrigger.DeleteSubtracts | django/applications/catmaid/migrations/0035_add_skeleton_summary_table.py:278-293 | a row loses exactly the deleted node count of its skeleton and their edge lengths |
| DeleteTrigger.DeleteFactSums | django/applications/catmaid/migrations/0035_add_skeleton_summary_table.py:278-287 | the group counts the deleted nodes and sums their stored edge lengths |
| DeleteTrigger.KeepProjectSums | django/applications/catmaid/migrations/0035_add_skeleton_summary_table.py:291-293 | the project condition loses nothing when the group is in the row's project |
| DeleteTrigger.KeepProjectGroup | django/applications/catmaid/migrations/0035_add_skeleton_summary_table.py:291-293 | nor does it hide the group |
| DeleteTrigger.DeleteFactsOfInserted | django/applications/catmaid/migrations/0035_add_skeleton_summary_table.py:278-287 | deleting a batch aggregates the same rows its insert did |
| DeleteTrigger.InsertedGroupInProject | django/applications/catmaid/migrations/0035_add_skeleton_summary_table.py:59-67 | inserted nodes of one project give rows of that project |
| DeleteTrigger.DeleteUndoesGroup | django/applications/catmaid/migrations/0035_add_skeleton_summary_table.py:288-293 | subtracting a group that was added restores count and cable |
| DeleteTrigger.InsertThenDeleteRestoresRows | django/applications/catmaid/migrations/0035_add_skeleton_summary_table.py:288-293 | insert then delete of one batch gives every existing row its node count and cable back, and leaves a newly created row at zero |
| DeleteTrigger.DeleteUndoesExistingRow | django/applications/catmaid/migrations/0035_add_skeleton_summary_table.py:288-293 | a group upserted into an existing row of its project and then subtracted leaves that row's count and cable as they were |
| DeleteTrigger.DeleteZeroesNewRow | django/applications/catmaid/migrations/0035_add_skeleton_summary_table.py:288-293 | a row the upsert created is left at zero nodes and zero cable once the same group is subtracted |
| DeleteTrigger.InsertThenDeleteRestoresEdges | django/applications/catmaid/migrations/0035_add_skeleton_summary_table.py:295-299 | insert then delete of one batch gives the edge table back |
| InitialFill.SkeletonsWithEdge | django/applications/catmaid/migrations/0035_add_skeleton_summary_table.py:414-426 | exactly the skeletons having a node whose parent row exists |
| InitialFill.NodeFacts | django/applications/catmaid/migrations/0035_add_skeleton_summary_table.py:393-428 | one row per node with count 1 and its child-to-parent length |
| InitialFill.InitialRows | django/applications/catmaid/migrations/0035_add_skeleton_summary_table.py:393-436 | rows only for skeletons with at least one child-to-parent edge |
| InitialFill.NodeFactSums | django/applications/catmaid/migrations/0035_add_skeleton_summary_table.py:409-426 | `counter` counts all nodes, roots included, and `len` sums the child-to-parent edges |
| InitialFill.InitialRowContents | django/applications/catmaid/migrations/0035_add_skeleton_summary_table.py:393-436 | a row has all nodes counted, the child-to-parent cable, `now()`, and the earliest creation and latest edition times and the project of the skeleton's nodes |
| InitialFill.LoneRootHasNoRow | django/applications/catmaid/migrations/0035_add_skeleton_summary_table.py:422-426 | a lone root gets no row from the fill, while the insert trigger gives it one with one node |
| InitialFill.NodeFactsAreInsertFacts | django/applications/catmaid/migrations/0035_add_skeleton_summary_table.py:414-426 | with every parent present, the fill's per-node rows are the insert trigger's |
| InitialFill.InitialFillAgreesWithInsert | django/applications/catmaid/migrations/0035_add_skeleton_summary_table.py:393-436 | on the skeletons it covers the fill agrees with inserting the whole table through the insert trigger |
| SummaryTables.SkeletonSummaryTables.OnInsert | django/applications/catmaid/migrations/0035_add_skeleton_summary_table.py:55-104 | the tables become the insert trigger's summary and edges |
| SummaryTables.SkeletonSummaryTables.OnEdit | django/applications/catmaid/migrations/0035_add_skeleton_summary_table.py:107-266 | the summary is computed from the edge rows as they were, and the edges then take their new lengths |
| SummaryTables.SkeletonSummaryTables.OnDelete | django/applications/catmaid/migrations/0035_add_skeleton_summary_table.py:271-303 | the summary is updated from the old edge rows, then the deleted nodes' edges are removed |
| SummaryTables.SkeletonSummaryTables.FillInitial | django/applications/catmaid/migrations/0035_add_skeleton_summary_table.py:391-437 | the empty summary table becomes the fill's rows; edges are untouched |

## Left out

- I/O, the DOM, jQuery, DataTables and the 3D viewer are not modelled. `CATMAID.fetch` results and promise chaining are inputs or are left out. The random draws at reconstruction-sampler.js lines 1625, 2130 and 2420 are left to the caller: each pick ends with the list it would draw from.
- The interval partitioner (`CATMAID.Sampling.intervalsFromModels`), `getIntervalNodes` and `Arbor.interpolatePositions` are not part of this model. Only their call sites are in the widget; `RegenerateIntervalNodes` takes the interval's nodes as given.
- JavaScript `Date` is not modelled. `formatDate` takes the integers its UTC getters return.
- Numbers are exact; floating-point rounding is not modelled. `parseInt` results are exact integers, and edge lengths and cable lengths are exact reals.
- JsNumber: covers blank text and decimal integer notation only. Fractions, exponents, hexadecimal and `Infinity` read as NaN here, while `Number` reads them as numbers.
- SamplerRecords.GetTypeId: JavaScript keys are strings; the model uses the integer ids they hold, which `for...in` visits in ascending order.
- SynapseStep.SynapseWorkflowStep.PushNotExcluded: requires that every connector of the list with a sampler record has a state in `possibleStates`. For such a connector the source throws a TypeError on `possibleStates[sc.state_id].name`, and that path is not modelled.
- SynapseStep.SynapseWorkflowStep.PickRandomSynapse: requires the same of the sampled lists only. The `!this.connectorData` guard is not modelled: the constructor sets the field to `{}`, so the guard can never fire. What happens after the draw (the 'started' state lookup and the state update) is I/O and is left out.
- SynapseStep.SynapseWorkflowStep.LoadConnectorTable: the link tuples become `ConnectorRow` values with the connector id and treenode id only; the other columns are display data.
- SynapseStep.SynapseWorkflowStep.RegenerateIntervalNodes: does not promise that the stored connectors stay on the new interval, since the source only refilters them when the table reloads.
- SynapseStep.SynapseWorkflowStep.HandleActiveNodeChange: the `!this.intervalTreenodes` branch is not modelled, because the constructor always sets the set. `node.parent_id` is taken as an integer id or none; `SkeletonAnnotations` node-type checks become the `ActiveNode` cases.
- `CATMAID.Workflow` step sequencing, `ensureMetadata` loading and `CATMAID.tools.getDefined` are defined elsewhere and are not modelled.
- Edge length is not modelled as PostGIS `ST_MakeLine`/`ST_3DLength` geometry. It is a given function of the two end points (`Metric`). Where a lemma needs it, that function is non-negative and zero from a point to itself (`IsLength`).
- `now()` and timestamps are integers given by the caller.
- SummaryRows.Upsert: requires that all rows about one skeleton name one project. In the source the groups are per (skeleton, project), and PostgreSQL rejects an `ON CONFLICT DO UPDATE` that would affect one row twice, so a violating statement fails. That failure is not modelled.
- InsertTrigger.EdgesAfterInsert: requires that no inserted id already has an edge row. The source would fail on the primary key.
- SummaryTables.SkeletonSummaryTables.FillInitial: requires an empty summary table, as the migration runs on the freshly created table. It also takes the project from the skeleton's rows rather than from the earliest-created node; the two agree under the same consistent-project requirement. `user_id` and `editor_id` are selected but never inserted, and are left out.
- Trigger registration, transition-table mechanics, the planner `LIMIT` hints, and the reverse (down) SQL with its per-row triggers are not modelled.
- Migrations 0025, 0039 and 0064 are pure DDL and are not modelled.

## Findings

| source | as written | input that shows it | evidently intended | confidence | as-written member | corrected member |
|---|---|---|---|---|---|---|
| django/applications/catmaid/static/js/widgets/reconstruction-sampler.js:347 | the Z input's `onchange` stores the parsed list into `interpolatableY` | typing "5" into the Z input: the Y list becomes [5] and the Z list is unchanged | store into `interpolatableZ`, as the X and Y handlers store into their own lists | not executed; high | InterpolatableList.ApplyInputAsWritten (shown by InterpolatableList.ZInputOverwritesY) | InterpolatableList.ApplyInput |
| django/applications/catmaid/static/js/widgets/reconstruction-sampler.js:1472 | the Y and Z guards of `createNewIntervals` (1472, 1477) and of `previewIntervals` (625, 630) test `interpolatableX` again | a state with skeleton, domain, length, error and X list set but no Y list: both operations proceed | each guard tests the list its warning names | not executed; high | WorkflowState.CreateIntervalsAsWrittenIgnoresYZ (shown by WorkflowState.MissingYListGoesUnnoticed) | WorkflowState.CreateIntervalsNeedsAllLists |
| django/applications/catmaid/static/js/widgets/reconstruction-sampler.js:236 | the interval length input stores its text, while the interval error input next to it stores `Number(text)` | typing "0": the string "0" is truthy, so the `!intervalLength` guards at 1455 and 603 let a zero length through | store `Number(this.value)`, so that a zero length is rejected | not executed; medium | WorkflowState.SetIntervalLengthAsWritten (shown by WorkflowState.TypedZeroLengthPassesGuard) | WorkflowState.SetIntervalLength |

The new_edge CTE's second branch (lines 204-212 of the migration) can never yield a row. `old_edge` holds only ids of `updated_edge_data`, and the branch asks for ids outside it. `EditTrigger.SecondBranchEmpty` proves this. The branch is modelled as written, and the observation is not listed as a finding, because what the branch was meant to add is not evident.
