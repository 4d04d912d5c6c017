# Graph editor core, modelled in Dafny

This project models the client side of a small graph-building web
application in Dafny. Users draw a directed, weighted graph: they add named
nodes, connect them with edges whose weight is typed at a prompt, select
things to delete them, and in two of the editors undo. A graph can also be
imported from CSV rows and sent off to be processed. The rest of the client
shows saved graphs and TSP tours: it draws a tour over the stored edges,
converts the solver's adjacency list, and adds up a tour's length.

The files and what they hold:

- `js.dfy`: the JavaScript behaviour the code relies on.
  - Numeric conversions (`Number`, `parseFloat`, `String`/`toString`) are function parameters. A parse returns `Num`, which is `NaN`, a finite real, or an infinity.
  - `trim`, and the decimal text of a natural number.
- `graph.dfy`: the node and edge DataSets.
  - Edges are a map keyed by the ordered pair `(from, to)`.
  - The string id `${from}-${to}` is shown not to be injective.
- `selection.dfy`: the click handler.
- `edge_rules.dfy`: the two acceptance rules every editor applies.
  - A node name must be non-blank after trimming and unused.
  - An edge must not repeat an ordered pair, and its weight must be a number that is at least 0.
- `editing.dfy`: each editor operation as a step function on a graph, with the record it pushes. One lemma per step proves that undoing the record restores the graph before the step. `RunThenUndoAll` extends this to any sequence of operations.
- `commands.dfy`: the five history record kinds, how each is reverted, and the stack invariant `Replayable`. The invariant says every record can be undone, newest first, back to a well-formed graph.
- `history_editor.dfy`: the two editors with an undo stack, as one class `HistoryEditor`. They are the graph builder (`GraphBuilder/index.jsx`) and the saved-graph editor (`GraphEditor/index.jsx`), and their operations are identical. The saved-graph editor's initial fetch is the constructor `Loaded`.
- `plain_editor.dfy`: the editors without a stack, as one class `PlainEditor`. They are `GraphBuilder.jsx`, and `GraphBuilder/GraphBuilder.jsx` together with `NetworkVisualization.jsx`. The class covers CSV import and the "process graph" guard.
- `csv_import.dfy`: the row loop of CSV import (`GraphBuilder.jsx` and `utils/GraphUtils.jsx`).
- `transport.dfy`: the payload sent for processing, the saved-graph load mapping and the save payload.
- `csv_export.dfy`: the CSV text built by `downloadCSV`.
- `tsp_result.dfy`: the TSP result page's three helpers.
- `graph_viewer.dfy`: the saved-graph viewer. It covers the edge mapping, the tour highlight and merge, the run toggle and the result list.
- `findings.dfy`: the edge store as the history editors actually key it, by string id (see Findings).

Every state-changing handler is a method. Its `ensures` ties the new state to the step function of `editing.dfy`, and `Valid()` is preserved. A loop in the source is a loop in the model, proved equal to a recursive specification function. The lemmas about that function carry the properties.

## Model

| member | source | states |
|---|---|---|
| Graphs.EdgeIdNotInjective | frontend/src/components/GraphEditor/index.jsx:151 | The id `from-to` is the same for "a-b"→"c" and "a"→"b-c". |
| Graphs.EdgeIdInjectiveWithoutDash | frontend/src/components/GraphEditor/index.jsx:151 | When neither source name contains `-`, two pairs get the same id `from-to` exactly when they are the same pair. |
| Graphs.BeforeDashOfId | frontend/src/components/GraphEditor/index.jsx:151 | A source name without `-` is the part of its id before the first `-`. |
| Graphs.Incident | frontend/src/components/GraphEditor/index.jsx:171-174 | A stored edge is in the result exactly when its `from` or `to` is the node, and it is unchanged there. |
| Graphs.WithoutId | frontend/src/components/GraphBuilder.jsx:240 | `remove(id)` keeps a stored edge exactly when its id differs, unchanged. |
| Graphs.NodesNamed | frontend/src/components/GraphEditor/index.jsx:44-47 | The node map holds exactly the given names, each as `{id: name, label: name}`. |
| Graphs.EdgesOf | frontend/src/components/GraphEditor/index.jsx:50-55 | For edges with distinct pairs, the map holds exactly those pairs, each under its own edge. |
| Js.TrimEmptyIffBlank | frontend/src/components/GraphEditor/index.jsx:110 | `trim()` gives "" exactly when every character is JavaScript whitespace. |
| Js.NatToString | frontend/src/components/TSPResult/index.jsx:93 | The decimal text is non-empty, all digits, has no leading zero, and its digits read back as the number. |
| Js.NatToStringInjective | frontend/src/components/TSPResult/index.jsx:93 | Two numbers render alike exactly when they are equal. |
| TspResult.TspIdsDistinct | frontend/src/components/TSPResult/index.jsx:93 | The ids `tsp-${i}` of different segments differ. |
| Selections.OnClick | frontend/src/components/GraphBuilder.jsx:133-148 | A node hit selects that node, ahead of any edge. Otherwise an edge hit selects the stored edge, and otherwise nothing is selected. NetworkVisualization.jsx lines 100-112 apply the same rule. |
| EdgeRules.JudgeNodeName | frontend/src/components/GraphBuilder/index.jsx:77-87 | Blank exactly when the name is all whitespace. Duplicate exactly when the name is non-blank and already an id. Fresh otherwise. |
| EdgeRules.JudgeEdge | frontend/src/components/GraphBuilder/index.jsx:101-134 | A duplicate exactly when the ordered pair exists. Accepted exactly when the pair is new and the answer is non-null, numeric and ≥ 0. The label is the raw answer. |
| EdgeRules.DuplicateIsPairMembership | frontend/src/components/GraphBuilder/index.jsx:105-107 | For a pair-keyed map, the filter test is membership of `(from,to)`. |
| EdgeRules.ReversedPairIsNotDuplicate | frontend/src/components/GraphBuilder/index.jsx:105-113 | Example: `b→a` is accepted beside `a→b`. |
| EdgeRules.NegativeWeightRejected | frontend/src/components/GraphBuilder.jsx:101-109 | Example: the answer "-1" is refused. |
| EdgeRules.SelfLoopAccepted | frontend/src/components/GraphBuilder/components/NetworkVisualization.jsx:64-82 | Example: a self-loop with a good weight is accepted. |
| Editing.AddNodeStep | frontend/src/components/GraphBuilder/index.jsx:77-99 | Refused unless the name is fresh. If fresh, the node `{id: name, label: name}` is added untrimmed, and that node is the record. |
| Editing.AddEdgeStep | frontend/src/components/GraphEditor/index.jsx:132-163 | Done exactly when the pair is new and the weight is accepted. Only the new pair's edge is added, and all other edges are unchanged. |
| Editing.DeleteStep | frontend/src/components/GraphBuilder/index.jsx:139-172 | A node goes with exactly its incident edges, in one record. An edge goes alone. Nothing selected changes nothing. |
| Editing.ClearStep | frontend/src/components/GraphBuilder/index.jsx:210-239 | When confirmed, the graph is empty and the record snapshots both maps. When declined, it is refused. |
| Editing.AddNodeUndone | frontend/src/components/GraphBuilder/index.jsx:179-191 | Reverting an addNode record restores the graph before the add. |
| Editing.AddEdgeUndone | frontend/src/components/GraphEditor/index.jsx:216-218 | Reverting an addEdge record restores the graph before the add. |
| Editing.DeleteNodeUndone | frontend/src/components/GraphEditor/index.jsx:219-222 | Re-adding the node and its edges restores the graph before the delete. |
| Editing.DeleteLiveNodeUndone | frontend/src/components/GraphEditor/index.jsx:219-222 | For a stored node, re-adding it and its incident edges gives back exactly the graph before the delete. |
| Editing.DeleteStaleNodeUndone | frontend/src/components/GraphEditor/index.jsx:171-180 | For a node id no longer stored, no edge is incident, so the delete leaves the edges as they were and undo restores the graph. |
| Editing.DeleteEdgeUndone | frontend/src/components/GraphEditor/index.jsx:223-225 | Re-adding the edge restores the graph before the delete. |
| Editing.DeleteUndone | frontend/src/components/GraphEditor/index.jsx:165-196 | Every outcome of deleteSelected can be undone. |
| Editing.ClearUndone | frontend/src/components/GraphEditor/index.jsx:226-229 | Re-adding the snapshot restores the graph before the clear. |
| Editing.ApplyUndone | frontend/src/components/GraphEditor/index.jsx:203-233 | Any one operation, followed by undo, restores the prior nodes and edges. |
| Editing.AdvanceUndone | frontend/src/components/GraphEditor/index.jsx:203-233 | A refused intent changes neither graph nor history. Otherwise pushing its record keeps the stack replayable, and one undo returns to the previous graph and history. |
| Editing.FirstStep | frontend/src/components/GraphBuilder/index.jsx:179-208 | The first intent of a feasible run keeps the stack replayable. It either changes nothing or pushes one record that one undo takes back. The rest of the run stays feasible. |
| Editing.UndoPrefixThenFirst | frontend/src/components/GraphEditor/index.jsx:203-233 | Undoing the rest of a run and then the first record returns to the start of the run. |
| Editing.RunThenUndoAll | frontend/src/components/GraphBuilder/index.jsx:179-208 | After any sequence of recorded operations, undoing as many times as there were records returns the original graph and history. |
| Commands.UndoTimes | frontend/src/components/GraphBuilder/index.jsx:185-186 | Undoing n times leaves the history minus its last n records. |
| Commands.PushKeepsReplayable | frontend/src/components/GraphEditor/index.jsx:123 | A record whose revert gives back the old graph keeps the stack replayable, and one undo returns it. |
| Commands.PopKeepsReplayable | frontend/src/components/GraphBuilder/index.jsx:185-186 | Popping keeps the rest of the stack replayable. |
| Commands.UndoTimesAdd | frontend/src/components/GraphBuilder/index.jsx:179-208 | Undoing a times and then b times is undoing a+b times. |
| HistoryEditing.HistoryEditor.constructor | frontend/src/components/GraphBuilder/index.jsx:15-21 | Empty graph and history, nothing selected, empty input. |
| HistoryEditing.HistoryEditor.Loaded | frontend/src/components/GraphEditor/index.jsx:40-55 | The graph holds exactly the loaded nodes `{id: label, label}` and edges `{id: from-to, …, label: String(weight)}`, with an empty history. |
| HistoryEditing.HistoryEditor.SetInput | frontend/src/components/GraphEditor/index.jsx:22 | Only the input changes. |
| HistoryEditing.HistoryEditor.AddNode | frontend/src/components/GraphEditor/index.jsx:109-130 | The graph becomes the step's result and one record is pushed, and only then is the input cleared. A refusal changes nothing. The stack stays replayable. |
| HistoryEditing.HistoryEditor.AddEdge | frontend/src/components/GraphEditor/index.jsx:132-163 | An accepted edge with id `from-to` is added and exactly one record is pushed. A refusal touches neither the edges nor the history. |
| HistoryEditing.HistoryEditor.Click | frontend/src/components/GraphEditor/index.jsx:84-96 | The selection follows the click rule. Nothing else changes. |
| HistoryEditing.HistoryEditor.DeleteSelected | frontend/src/components/GraphEditor/index.jsx:165-196 | The step's result with one pushed record, and the selection cleared. Nothing selected changes nothing. |
| HistoryEditing.HistoryEditor.Undo | frontend/src/components/GraphEditor/index.jsx:203-233 | An empty stack changes nothing. Otherwise exactly the last record is popped and reverted. The selection is untouched. |
| HistoryEditing.HistoryEditor.ClearGraph | frontend/src/components/GraphEditor/index.jsx:235-261 | When confirmed, one snapshot record is pushed, the graph is emptied and the selection cleared. When declined, nothing changes. |
| HistoryEditing.AddNodeThenUndo | frontend/src/components/GraphBuilder/index.jsx:77-99 | An add followed by undo restores the graph and history, and keeps the selection. |
| HistoryEditing.StaleNodeDeleteRecordsNull | frontend/src/components/GraphEditor/index.jsx:165-182 | Deleting a node that undo already removed records a null node with no edges, and changes nothing. |
| HistoryEditing.LoadedPairsDistinct | frontend/src/components/GraphEditor/index.jsx:50-55 | Distinct loaded ids mean distinct pairs. |
| PlainEditing.PlainEditor.constructor | frontend/src/components/GraphBuilder.jsx:18-26 | An empty graph with nothing selected. |
| PlainEditing.PlainEditor.SetInput | frontend/src/components/GraphBuilder.jsx:18 | Only the input changes. |
| PlainEditing.PlainEditor.AddNode | frontend/src/components/GraphBuilder/GraphBuilder.jsx:24-41 | A blank or used name changes nothing and keeps the input. A fresh name is added untrimmed and the input is cleared. |
| PlainEditing.PlainEditor.AddEdge | frontend/src/components/GraphBuilder.jsx:86-109 | An existing pair or a bad weight adds nothing. Otherwise the edge is added with the raw answer as its label. |
| PlainEditing.PlainEditor.Click | frontend/src/components/GraphBuilder.jsx:133-148 | The selection follows the click rule. |
| PlainEditing.PlainEditor.DeleteSelected | frontend/src/components/GraphBuilder.jsx:224-250 | A node goes with exactly its incident edges. For an edge, every stored edge with the selected edge's id goes and nothing else changes. The selection is cleared. Nothing selected changes nothing. Same code in `GraphBuilder/GraphBuilder.jsx:51-69`. |
| PlainEditing.DeleteByIdIsDeleteByPair | frontend/src/components/GraphBuilder.jsx:238-241 | When the selected edge is still stored under its pair and no other edge shares its id, deleting by id removes exactly that edge. |
| PlainEditing.StaleEdgeSelectionKeepsImported | frontend/src/components/GraphBuilder.jsx:272-320 | Example: the import leaves the selection alone; a selected edge whose id is no longer stored deletes nothing, even when an edge with its pair was imported. |
| PlainEditing.PlainEditor.ImportCsv | frontend/src/components/GraphBuilder.jsx:272-320 | The graph is exactly the imported graph, with nothing of what was there before. |
| PlainEditing.PlainEditor.ProcessGraph | frontend/src/components/GraphBuilder/GraphBuilder.jsx:78-87 | Nothing is sent if there are no nodes. Otherwise the current graph is sent unchanged. |
| CsvImport.AddOnce | frontend/src/components/utils/GraphUtils.jsx:74-75 | Adding to an insertion-ordered set keeps the old order as a prefix and keeps it duplicate-free. |
| CsvImport.AddOnceMembers | frontend/src/components/utils/GraphUtils.jsx:74-75 | The members after an add are exactly the old members and the added name. |
| CsvImport.RowEdge | frontend/src/components/GraphBuilder.jsx:293-306 | The id is the key `From-To`, and the ends are the row's cells. |
| CsvImport.NodeOrder | frontend/src/components/GraphBuilder.jsx:283-291 | The node order has no repeats. |
| CsvImport.ImportRows | frontend/src/components/utils/GraphUtils.jsx:62-101 | The loop yields exactly the specified node order and edge list. |
| CsvImport.NodeOrderIsEndpoints | frontend/src/components/utils/GraphUtils.jsx:72-75 | The nodes are exactly the endpoints of the rows with both cells. Skipped rows add nothing. |
| CsvImport.NodeOrderGrows | frontend/src/components/GraphBuilder.jsx:289-290 | The nodes of earlier rows are a prefix of the final order. |
| CsvImport.FirstAppearanceOrder | frontend/src/components/utils/GraphUtils.jsx:98-101 | A node seen first comes before a node seen later. |
| CsvImport.EdgeListKeys | frontend/src/components/GraphBuilder.jsx:293-306 | The edge ids are exactly the keys of the valid rows, each once. |
| CsvImport.EdgeListGrows | frontend/src/components/utils/GraphUtils.jsx:78-91 | The edges of earlier rows are a prefix of the final list. |
| CsvImport.FirstRowWins | frontend/src/components/utils/GraphUtils.jsx:78-91 | The first valid row with a key gives the only edge with that id. |
| CsvImport.EdgeListFromRows | frontend/src/components/GraphBuilder.jsx:293-306 | Every edge is the edge of the first row with its key. |
| CsvImport.EdgeCountIsKeyCount | frontend/src/components/GraphBuilder.jsx:287-320 | The edge count is the number of distinct keys among the valid rows. |
| CsvImport.EdgeListDistinctPairs | frontend/src/components/GraphBuilder.jsx:318-319 | The imported edges have distinct pairs. |
| CsvImport.EndpointsAreNodes | frontend/src/components/GraphBuilder.jsx:287-320 | Every imported edge joins two imported nodes. |
| CsvImport.ImportedGraph | frontend/src/components/GraphBuilder.jsx:273-274 | The graph is well formed. Its nodes are exactly the mentioned names, and its edges are exactly the imported edge list. |
| CsvImport.KeyCollisionDropsEdge | frontend/src/components/GraphBuilder.jsx:293-295 | The rows a-b→c and a→b-c give one edge, while the node list has all four names. |
| CsvImport.LabelDefaultsOnlyWhenMissing | frontend/src/components/utils/GraphUtils.jsx:85 | A missing Cost gives "1". An empty Cost stays "". |
| Transport.ToWirePayload | frontend/src/components/GraphBuilder/apiUtils.js:9-18 | Node count, order and labels are kept, with nothing else on a node. Edge count, order and ends are kept. A weight is never NaN or 0: it is the parse when that is nonzero, else 1. `processGraphData` in utils/GraphUtils.jsx lines 6-15 builds the same payload. |
| Transport.ZeroWeightSentAsOne | frontend/src/components/GraphBuilder/apiUtils.js:16 | Example: a label that parses to 0 is sent as weight 1. |
| Transport.Labels | frontend/src/components/GraphEditor/index.jsx:44-47 | One label per stored node, in order. |
| Transport.LoadNodes | frontend/src/components/GraphViewer/index.jsx:91-94 | One node per stored node, with id = label = stored label. |
| Transport.LoadEdges | frontend/src/components/GraphEditor/index.jsx:50-55 | One edge per stored edge. The id is `from-to`, it is keyed by its pair, and its label is `String(weight)`. |
| Transport.SaveEdges | frontend/src/components/GraphEditor/index.jsx:277-281 | Every edge, in order, becomes `{from, to, weight: Number(label)}`. |
| Transport.LoadThenSave | frontend/src/components/GraphEditor/index.jsx:50-55 | Where `Number(String(w)) = w`, loading then saving returns every stored edge's ends and weight. |
| CsvExport.DownloadCsv | frontend/src/components/GraphViewer.jsx:44-51 | None exactly when the data or its edge list is missing. Otherwise the text, before `encodeURI`, is the prefix followed by the body. |
| CsvExport.Lines | frontend/src/components/GraphViewer.jsx:51 | One `source,target,weight` line per edge, in order. |
| CsvExport.SplitJoin | frontend/src/components/GraphViewer.jsx:51 | Splitting at `\n` undoes the join when no part holds `\n`. |
| CsvExport.BodyReadsBack | frontend/src/components/GraphViewer.jsx:50-51 | No edges gives exactly "From,To,Cost\n". Otherwise the body splits into the header and then one line per edge, with no trailing newline. |
| CsvExport.LineSplits | frontend/src/components/GraphViewer.jsx:51 | A line without commas in its fields splits back into its three fields. |
| CsvExport.CommaInNameAddsColumn | frontend/src/components/GraphViewer.jsx:51 | Fields are not quoted, so a comma in a name adds a column. |
| CsvExport.MissingWeightWrittenUndefined | frontend/src/components/GraphViewer.jsx:51 | A missing weight is written as "undefined". |
| TspResult.SegmentData | frontend/src/components/TSPResult/index.jsx:89 | The forward id is used if present, else the reverse id, else nothing. |
| TspResult.ForwardPreferred | frontend/src/components/TSPResult/index.jsx:89 | Example: when both ids are present, the forward data wins. |
| TspResult.PathEdges | frontend/src/components/TSPResult/index.jsx:82 | A missing or one-stop path gives no edges. Otherwise there are at most `path.length-1` edges. |
| TspResult.SegmentsSound | frontend/src/components/TSPResult/index.jsx:84-101 | Exactly one edge per hit segment, at most k of them, each with `from = path[i]`, `to = path[i+1]` and id `tsp-i`. |
| TspResult.SegmentsComplete | frontend/src/components/TSPResult/index.jsx:91-100 | Every segment with data in either direction yields its edge. |
| TspResult.PathEdgesAreSegments | frontend/src/components/TSPResult/index.jsx:84-101 | The same two statements for the whole path. |
| TspResult.CreateTspPathEdges | frontend/src/components/TSPResult/index.jsx:79-104 | The loop yields exactly the specified list. |
| TspResult.AdjNodes | frontend/src/components/TSPResult/index.jsx:183-188 | One node per key, in order, with id = label = key. |
| TspResult.NodesAreKeys | frontend/src/components/TSPResult/index.jsx:183-188 | A name has a node exactly when it is a key. Targets that are not keys get none. |
| TspResult.EntryEdges | frontend/src/components/TSPResult/index.jsx:192-210 | One edge per target of an entry. |
| TspResult.AdjEdgesAreTargets | frontend/src/components/TSPResult/index.jsx:191-211 | One edge per (from, to) entry, with id `from-to` and the copied weight. |
| TspResult.LastWriteWins | frontend/src/components/TSPResult/index.jsx:196-200 | Under an id, `edgeMap` holds the last edge with that id. |
| TspResult.MapOfListKeys | frontend/src/components/TSPResult/index.jsx:196-200 | The `edgeMap` keys are exactly the edge ids. |
| TspResult.DistinctIdsAllKept | frontend/src/components/TSPResult/index.jsx:196-200 | With distinct ids, `edgeMap[id]` holds each edge's from, to and weight. |
| TspResult.CollidingIdsOverwrite | frontend/src/components/TSPResult/index.jsx:193-200 | "a-b"→"c" and "a"→"b-c" share one `edgeMap` entry, and the later one wins. |
| TspResult.ConvertAdjacencyList | frontend/src/components/TSPResult/index.jsx:177-215 | The nested loops yield exactly the specified nodes, edges and `edgeMap`. |
| TspResult.FindEntry | frontend/src/components/TSPResult/index.jsx:226 | The entry for a key if there is one, and none exactly when no entry has that key. |
| TspResult.FindTarget | frontend/src/components/TSPResult/index.jsx:226 | A target's weight if there is one, and none exactly when no target has that name. |
| TspResult.PathDistance | frontend/src/components/TSPResult/index.jsx:218-233 | A path of length ≤ 1 gives 0. |
| TspResult.SegmentWeightNonNegative | frontend/src/components/TSPResult/index.jsx:226-230 | With non-negative weights, a segment adds at least 0. |
| TspResult.DistanceNonNegative | frontend/src/components/TSPResult/index.jsx:221-231 | With non-negative weights, the sum over any number of segments is at least 0. |
| TspResult.PathDistanceNonNegative | frontend/src/components/TSPResult/index.jsx:219-231 | With non-negative weights, the distance is at least 0. |
| TspResult.ReverseFallback | frontend/src/components/TSPResult/index.jsx:228-230 | Example: a segment listed only backwards counts with the backward weight. |
| TspResult.CalculatePathDistance | frontend/src/components/TSPResult/index.jsx:218-233 | The loop's total is the specified distance. |
| GraphViewing.BaseEdges | frontend/src/components/GraphViewer/index.jsx:113-118 | One edge per stored edge, `{id: from-to, from, to, label}`, where label is the weight's text or "" when the weight is missing. |
| GraphViewing.FindStored | frontend/src/components/GraphViewer/index.jsx:126-128 | The first stored edge in the same direction, and none exactly when there is no such edge. |
| GraphViewing.Highlights | frontend/src/components/GraphViewer/index.jsx:121-140 | One highlight per consecutive pair. Its label comes from a forward stored edge only, else "". |
| GraphViewing.BuildHighlights | frontend/src/components/GraphViewer/index.jsx:121-140 | The loop yields exactly the specified highlights. |
| GraphViewing.FindIndex | frontend/src/components/GraphViewer/index.jsx:143-145 | The first index with the same from/to, or -1 exactly when there is none. |
| GraphViewing.MergeOneEffect | frontend/src/components/GraphViewer/index.jsx:142-151 | A highlight whose ends are drawn replaces in place and the length is kept. Otherwise it is appended. No other edge changes. |
| GraphViewing.MergeHighlights | frontend/src/components/GraphViewer/index.jsx:142-151 | The loop yields exactly the specified merge. |
| GraphViewing.MergeAllKeeps | frontend/src/components/GraphViewer/index.jsx:142-151 | A base edge whose ends no highlight shares keeps its position and content. |
| GraphViewing.MergeAllPairs | frontend/src/components/GraphViewer/index.jsx:142-151 | The ends drawn are the base ends plus the tour's ends. |
| GraphViewing.MergeAllLength | frontend/src/components/GraphViewer/index.jsx:142-151 | The list grows by exactly the number of tour ends the base lacked. |
| GraphViewing.NoRunShowsBase | frontend/src/components/GraphViewer/index.jsx:113-120 | With no selected run, or a run without a path, exactly the base edges are shown. |
| GraphViewing.ShowSelectedRun | frontend/src/components/GraphViewer/index.jsx:112-157 | The effect shows exactly the specified edges. |
| GraphViewing.ToggleRun | frontend/src/components/GraphViewer/index.jsx:160-166 | None exactly when the clicked run is the selected one. Otherwise the clicked run is selected. |
| GraphViewing.ToggleTwice | frontend/src/components/GraphViewer/index.jsx:160-166 | The same click twice gives none from any other selection, and the run itself when starting from it. |
| GraphViewing.PrependResult | frontend/src/components/GraphViewer/index.jsx:186 | The new result comes first, and the prior results follow in their old order. |
| IdKeyedStore.DataSetAdd | frontend/src/components/GraphEditor/index.jsx:159 | An id that is already present is refused. Otherwise the one item is added, and nothing else changes. |
| IdKeyedStore.AddEdgeAsWritten | frontend/src/components/GraphEditor/index.jsx:132-163 | A record is pushed exactly when the pair and weight tests pass, and it is pushed whether or not the add then succeeds. |
| IdKeyedStore.UndoAddEdgeAsWritten | frontend/src/components/GraphEditor/index.jsx:216-218 | Removes the record's id and nothing else. |
| IdKeyedStore.FreshIdUndone | frontend/src/components/GraphEditor/index.jsx:154-159 | With a free id, the add and its undo cancel out. |
| IdKeyedStore.IdCollisionUndoLosesEdge | frontend/src/components/GraphEditor/index.jsx:216-218 | With "a-b"→"c" stored, adding "a"→"b-c" pushes a record but stores nothing, and undo then deletes "a-b"→"c". |

## Left out

- vis-network rendering is not modelled: drawing, physics, `fit`, `destroy`, `addEdgeMode` and the network options. A click is given as the lists of nodes and edges hit. A proposed edge is given as its two ends, which are always drawn nodes, so the edge methods require both ends to be nodes.
- `alert`, `prompt` and `confirm` are parameters (the prompt's answer, a confirmation flag) or are seen only through the verdict returned.
- DataSet order is not modelled. A DataSet is a map, keyed by node id for nodes and by ordered pair for edges, so `get()` order is lost. Each edge keeps its id as a field, and `PlainEditing.PlainEditor.DeleteSelected` removes edges by that id. The error a DataSet throws is not modelled either: re-adding an id that is present is excluded by `Commands.CanRevert` inside `Replayable`.
- `HistoryEditing.HistoryEditor.Loaded` requires distinct labels and distinct ids, because a stored graph with repeats makes the DataSet add throw. It also requires every edge to join stored nodes. The code does not check that and a DataSet would accept such an edge; the requirement is there so the loaded graph is well formed, and loading a graph with dangling edges is not modelled.
- `CsvExport.DownloadCsv` stops at the text built before `encodeURI`. The data link and the browser download are not modelled. `encodeURI` does not escape `#`, so a `#` in a field would cut the downloaded file short. A lone surrogate would make `encodeURI` throw. `CsvExport.BodyReadsBack` is about the text, not the downloaded file.
- HTTP and async code:
  - not modelled: `fetch`, `localStorage`, `navigate`, the uploader and the graph list;
  - the run id from `Date.now()` is an input;
  - the history editor's `processGraph`, and `saveGraph` beyond its edge mapping, are I/O.
- CSV tokenising is not modelled. Rows arrive already parsed, as maps from column name to cell text.
- In the graph builder with history, the CSV import goes through `processCSVData`. `csvUtils.js` is not part of this model, so that import, which is not recorded on the stack, is left out.
- Floating point is not modelled. Weights are reals, and the distance sum is exact. `Number`, `parseFloat` and `toString` are abstract. `Transport.LoadThenSave` assumes `Number(String(w)) = w`.
- JavaScript object key order is taken to be the order of the adjacency list's entries.
- `TspResult` does not model a `0` weight being falsy in `edgeMap[...] || ...`. A stored `EdgeData` object is always truthy, so the fallback only depends on the key being present.
- React state batching, effects and keyboard listeners are not modelled. Each handler is one atomic step.
- `GraphViewing.ToggleRun` compares run ids as integers. A run without an id is not modelled.
- The highlight styles (colour, width) are reduced to the flag `highlighted`. The `title` and the `tsp-` styling are kept only as far as the id and the label.
- The UI-only components and the backend are not modelled.

## Findings

| source | as written | input that shows it | evidently intended | confidence | as-written member | corrected member |
|---|---|---|---|---|---|---|
| frontend/src/components/GraphEditor/index.jsx:151-159, 216-218 | Edges are stored under the id `${from}-${to}`. The `addEdge` record is pushed before the add. Undo removes the record's id. | Stored edge "a-b"→"c" (id "a-b-c"). Add "a"→"b-c" with weight "1". The pair test passes, but the add is refused because the id is taken. The record is pushed, and undo deletes "a-b"→"c". | Each ordered pair stored under its own key, so that add-then-undo restores the graph. | not executed | IdKeyedStore.IdCollisionUndoLosesEdge | Editing.AddEdgeUndone |
