/** The two editors that keep an undo stack: the graph builder and the
    saved-graph editor. Both hold a node DataSet, an edge DataSet, the
    history, the selection and the node-name input, and change them in
    place. */
module HistoryEditing {
  import opened Js
  import opened Graphs
  import opened Selections
  import opened EdgeRules
  import opened Commands
  import opened Editing
  import opened Transport

  /** Distinct stored labels, as `DataSet.add` of the node array demands. */
  ghost predicate DistinctLabels(ns: seq<StoredNode>) {
    forall i, j | 0 <= i < j < |ns| :: ns[i].caption != ns[j].caption
  }

  /** Distinct `${from}-${to}` ids, as `DataSet.add` of the edge array demands. */
  ghost predicate DistinctEdgeIds(es: seq<StoredEdge>) {
    forall i, j | 0 <= i < j < |es| :: EdgeId(es[i].from, es[i].to) != EdgeId(es[j].from, es[j].to)
  }

  /** Every stored edge joins two stored nodes. */
  ghost predicate ClosedEdges(ns: seq<StoredNode>, es: seq<StoredEdge>) {
    forall i | 0 <= i < |es| :: es[i].from in Labels(ns) && es[i].to in Labels(ns)
  }

  /** Distinct ids give distinct pairs, so the loaded edges fill the edge map
      one each. */
  lemma LoadedPairsDistinct(es: seq<StoredEdge>, str: real -> string)
    requires DistinctEdgeIds(es)
    ensures DistinctPairs(LoadEdges(es, str))
  {
    var r := LoadEdges(es, str);
    forall i, j | 0 <= i < j < |r| ensures KeyOf(r[i]) != KeyOf(r[j]) {
      assert EdgeId(r[i].from, r[i].to) != EdgeId(r[j].from, r[j].to);
    }
  }

  /** A node selection that outlived its node (undo does not clear the
      selection) records a null node and no edges, and changes nothing. */
  lemma StaleNodeDeleteRecordsNull(g: Graph, id: string)
    requires WellFormed(g) && id != "" && id !in g.nodes
    ensures DeleteStep(g, NodeSel(id)) == Done(g, DeleteNodeCmd(None, map[]))
  {
    assert Incident(g.edges, id) == map[] by {
      forall k | k in g.edges ensures k !in Incident(g.edges, id) {
        assert KeyOf(g.edges[k]) == k;
      }
    }
    assert g.edges - {} == g.edges;
  }

  class HistoryEditor {
    var nodes: map<string, Node>
    var edges: map<Pair, Edge>
    var history: seq<Command>
    var selection: Selection
    /** The node-name input field, `newNodeName`. */
    var input: string

    function Snapshot(): Graph
      reads this
    {
      Graph(nodes, edges)
    }

    /** The graph is well formed and every record on the stack can be
        undone, newest first. */
    ghost predicate Valid()
      reads this
    {
      Replayable(Snapshot(), history)
    }

    /** The builder on mount, and the editor before its fetch returns. */
    constructor ()
      ensures Valid()
      ensures Snapshot() == EmptyGraph && history == [] && selection == NoSelection && input == ""
    {
      nodes := map[];
      edges := map[];
      history := [];
      selection := NoSelection;
      input := "";
    }

    /** The saved-graph editor once `fetchGraph` has filled both DataSets:
        node `{id: label, label}` and edge `{id: from-to, from, to, label:
        String(weight)}` for each stored item; nothing is recorded. */
    constructor Loaded(ns: seq<StoredNode>, es: seq<StoredEdge>, str: real -> string)
      requires DistinctLabels(ns) && DistinctEdgeIds(es) && ClosedEdges(ns, es)
      ensures Valid()
      ensures nodes == NodesNamed(Labels(ns))
      ensures DistinctPairs(LoadEdges(es, str)) && edges == EdgesOf(LoadEdges(es, str))
      ensures history == [] && selection == NoSelection && input == ""
    {
      LoadedPairsDistinct(es, str);
      nodes := NodesNamed(Labels(ns));
      edges := EdgesOf(LoadEdges(es, str));
      history := [];
      selection := NoSelection;
      input := "";
    }

    /** Typing in the node-name field. */
    method SetInput(s: string)
      modifies this
      ensures input == s
      ensures Snapshot() == old(Snapshot()) && history == old(history) && selection == old(selection)
    {
      input := s;
    }

    /** `addNode`: the verdict is the alert shown (none for a fresh name). A
        fresh name is recorded, then added, then the input is cleared; a
        refused one leaves everything, the input included, as it was. */
    method AddNode() returns (v: NameVerdict)
      requires Valid()
      modifies this
      ensures Valid()
      ensures v == JudgeNodeName(old(nodes), old(input))
      ensures var s := AddNodeStep(old(Snapshot()), old(input));
        && (s.Done? ==> Snapshot() == s.after && history == old(history) + [s.record] && input == "")
        && (s.Refused? ==> Snapshot() == old(Snapshot()) && history == old(history) && input == old(input))
      ensures selection == old(selection)
    {
      ghost var g := Snapshot();
      AddNodeUndone(g, input);
      v := JudgeNodeName(nodes, input);
      if v == FreshName {
        var n := Node(input, input);
        history := history + [AddNodeCmd(n)];
        nodes := nodes[n.id := n];
        PushKeepsReplayable(g, old(history), Snapshot(), AddNodeCmd(n));
        input := "";
      }
    }

    /** `handleAddEdge` for a proposed edge between two drawn nodes, with the
        prompt's answer `weight` (`None` when cancelled). An accepted edge
        gets the id `${from}-${to}` and the raw answer as label, and is
        recorded before it is added. */
    method AddEdge(from: string, to: string, weight: Option<string>, number: Parser) returns (v: EdgeVerdict)
      requires Valid() && from in nodes && to in nodes
      modifies this
      ensures Valid()
      ensures v == JudgeEdge(old(edges), from, to, weight, number)
      ensures var s := AddEdgeStep(old(Snapshot()), from, to, weight, number, EdgeId(from, to));
        && (s.Done? ==> Snapshot() == s.after && history == old(history) + [s.record])
        && (s.Refused? ==> Snapshot() == old(Snapshot()) && history == old(history))
      ensures selection == old(selection) && input == old(input)
    {
      ghost var g := Snapshot();
      AddEdgeUndone(g, from, to, weight, number, EdgeId(from, to));
      v := JudgeEdge(edges, from, to, weight, number);
      if v.Accepted? {
        var e := Edge(EdgeId(from, to), from, to, v.caption);
        history := history + [AddEdgeCmd(e)];
        edges := edges[Pair(from, to) := e];
        PushKeepsReplayable(g, old(history), Snapshot(), AddEdgeCmd(e));
      }
    }

    /** The network's click handler. */
    method Click(nodeHits: seq<string>, edgeHits: seq<Pair>)
      modifies this
      ensures selection == OnClick(old(edges), nodeHits, edgeHits)
      ensures Snapshot() == old(Snapshot()) && history == old(history) && input == old(input)
    {
      if |nodeHits| > 0 {
        selection := NodeSel(nodeHits[0]);
      } else if |edgeHits| > 0 {
        var edge := Lookup(edges, edgeHits[0]);
        selection := if edge.Some? then EdgeSel(edge.value) else NoSelection;
      } else {
        selection := NoSelection;
      }
    }

    /** `deleteSelected`: a node goes with its incident edges, an edge goes
        alone, each as one record pushed first; the selection is then
        cleared. Nothing selected changes nothing. */
    method DeleteSelected()
      requires Valid()
      modifies this
      ensures Valid()
      ensures var s := DeleteStep(old(Snapshot()), old(selection));
        && (s.Done? ==> Snapshot() == s.after && history == old(history) + [s.record] && selection == NoSelection)
        && (s.Refused? ==> Snapshot() == old(Snapshot()) && history == old(history) && selection == old(selection))
      ensures input == old(input)
    {
      ghost var g := Snapshot();
      DeleteUndone(g, selection);
      if selection.NodeSel? && selection.id != "" {
        var id := selection.id;
        var nodeData := Lookup(nodes, id);
        var connected := Incident(edges, id);
        history := history + [DeleteNodeCmd(nodeData, connected)];
        edges := edges - connected.Keys;
        nodes := nodes - {id};
        PushKeepsReplayable(g, old(history), Snapshot(), DeleteNodeCmd(nodeData, connected));
        selection := NoSelection;
      } else if selection.EdgeSel? {
        var key := KeyOf(selection.edge);
        var edgeData := Lookup(edges, key);
        history := history + [DeleteEdgeCmd(edgeData)];
        edges := edges - {key};
        PushKeepsReplayable(g, old(history), Snapshot(), DeleteEdgeCmd(edgeData));
        selection := NoSelection;
      }
    }

    /** `undo`: an empty stack changes nothing (the alert); otherwise the
        newest record is popped and its inverse applied. The selection is
        never touched. */
    method Undo() returns (popped: Option<Command>)
      requires Valid()
      modifies this
      ensures Valid()
      ensures old(history) == [] ==> popped == None && Snapshot() == old(Snapshot()) && history == []
      ensures old(history) != [] ==>
                && popped == Some(old(history)[|old(history)| - 1])
                && history == old(history)[..|old(history)| - 1]
                && Snapshot() == Revert(old(Snapshot()), popped.value)
                && (Snapshot(), history) == UndoTimes(old(Snapshot()), old(history), 1)
      ensures selection == old(selection) && input == old(input)
    {
      if history == [] {
        return None;
      }
      ghost var g := Snapshot();
      PopKeepsReplayable(g, history);
      var last := history[|history| - 1];
      history := history[..|history| - 1];
      popped := Some(last);
      match last
      case AddNodeCmd(n) =>
        nodes := nodes - {n.id};
      case AddEdgeCmd(e) =>
        edges := edges - {KeyOf(e)};
      case DeleteNodeCmd(removed, incident) =>
        if removed.Some? {
          nodes := nodes[removed.value.id := removed.value];
          edges := edges + incident;
        }
      case DeleteEdgeCmd(removedEdge) =>
        if removedEdge.Some? {
          edges := edges[KeyOf(removedEdge.value) := removedEdge.value];
        }
      case ClearCmd(ns, es) =>
        nodes := nodes + ns;
        edges := edges + es;
    }

    /** `clearGraph`: when confirmed, one record snapshots both DataSets,
        both are emptied and the selection is cleared. */
    method ClearGraph(confirmed: bool)
      requires Valid()
      modifies this
      ensures Valid()
      ensures confirmed ==>
                && Snapshot() == EmptyGraph
                && history == old(history) + [ClearCmd(old(nodes), old(edges))]
                && selection == NoSelection
      ensures !confirmed ==> Snapshot() == old(Snapshot()) && history == old(history) && selection == old(selection)
      ensures input == old(input)
    {
      if !confirmed {
        return;
      }
      ghost var g := Snapshot();
      ClearUndone(g, true);
      history := history + [ClearCmd(nodes, edges)];
      nodes := map[];
      edges := map[];
      PushKeepsReplayable(g, old(history), Snapshot(), ClearCmd(g.nodes, g.edges));
      selection := NoSelection;
    }
  }

  /** An add, a press of undo: the graph and history are back where they
      were, whatever was selected. */
  method AddNodeThenUndo(ed: HistoryEditor)
    requires ed.Valid()
    modifies ed
    ensures ed.Valid()
    ensures ed.Snapshot() == old(ed.Snapshot()) && ed.history == old(ed.history)
    ensures ed.selection == old(ed.selection)
  {
    var v := ed.AddNode();
    if v == FreshName {
      var popped := ed.Undo();
    }
  }
}
