/** The two graph builders without an undo stack. They apply the same node,
    edge and delete rules as the history editors, import CSV rows, and hand
    the graph on for processing. */
module PlainEditing {
  import opened Js
  import opened Graphs
  import opened Selections
  import opened EdgeRules
  import opened Editing
  import CsvImport

  class PlainEditor {
    var nodes: map<string, Node>
    var edges: map<Pair, Edge>
    var selection: Selection
    /** The node-name input field, `newNodeName`. */
    var input: string

    function Snapshot(): Graph
      reads this
    {
      Graph(nodes, edges)
    }

    ghost predicate Valid()
      reads this
    {
      WellFormed(Snapshot())
    }

    constructor ()
      ensures Valid()
      ensures Snapshot() == EmptyGraph && selection == NoSelection && input == ""
    {
      nodes := map[];
      edges := map[];
      selection := NoSelection;
      input := "";
    }

    method SetInput(s: string)
      modifies this
      ensures input == s
      ensures Snapshot() == old(Snapshot()) && selection == old(selection)
    {
      input := s;
    }

    /** `addNode`: a blank or used name is refused with an alert and the
        input kept; a fresh one is added untrimmed and the input cleared. */
    method AddNode() returns (v: NameVerdict)
      requires Valid()
      modifies this
      ensures Valid()
      ensures v == JudgeNodeName(old(nodes), old(input))
      ensures var s := AddNodeStep(old(Snapshot()), old(input));
        && (s.Done? ==> Snapshot() == s.after && input == "")
        && (s.Refused? ==> Snapshot() == old(Snapshot()) && input == old(input))
      ensures selection == old(selection)
    {
      ghost var g := Snapshot();
      AddNodeUndone(g, input);
      v := JudgeNodeName(nodes, input);
      if v == FreshName {
        nodes := nodes[input := Node(input, input)];
        input := "";
      }
    }

    /** The `addEdge` manipulation callback for an edge proposed between two
        drawn nodes: a repeated ordered pair is refused before the prompt; an
        acceptable answer becomes the label. The network then adds the edge
        under an id of its own choosing, `freshId`. */
    method AddEdge(from: string, to: string, weight: Option<string>, number: Parser, freshId: string)
      returns (v: EdgeVerdict)
      requires Valid() && from in nodes && to in nodes
      modifies this
      ensures Valid()
      ensures v == JudgeEdge(old(edges), from, to, weight, number)
      ensures var s := AddEdgeStep(old(Snapshot()), from, to, weight, number, freshId);
        && (s.Done? ==> Snapshot() == s.after)
        && (s.Refused? ==> Snapshot() == old(Snapshot()))
      ensures selection == old(selection) && input == old(input)
    {
      ghost var g := Snapshot();
      AddEdgeUndone(g, from, to, weight, number, freshId);
      v := JudgeEdge(edges, from, to, weight, number);
      if v.Accepted? {
        edges := edges[Pair(from, to) := Edge(freshId, from, to, v.caption)];
      }
    }

    /** The network's click handler. */
    method Click(nodeHits: seq<string>, edgeHits: seq<Pair>)
      modifies this
      ensures selection == OnClick(old(edges), nodeHits, edgeHits)
      ensures Snapshot() == old(Snapshot()) && input == old(input)
    {
      if |nodeHits| > 0 {
        selection := NodeSel(nodeHits[0]);
      } else if |edgeHits| > 0 {
        var edge := Lookup(edges, edgeHits[0]);
        selection := if edge.Some? then EdgeSel(edge.value) else NoSelection;
      } else {
        selection := NoSelection;
      }
    }

    /** `deleteSelected`: the incident edges first, then the node; or every
        edge carrying the selected edge's id, `networkEdges.remove(id)`;
        then the selection is cleared. Nothing selected changes nothing. */
    method DeleteSelected()
      requires Valid()
      modifies this
      ensures Valid()
      ensures old(selection).NodeSel? && old(selection).id != "" ==>
        && Snapshot() == DeleteStep(old(Snapshot()), old(selection)).after
        && selection == NoSelection
      ensures old(selection).EdgeSel? ==>
        && nodes == old(nodes)
        && edges == WithoutId(old(edges), old(selection).edge.id)
        && selection == NoSelection
      ensures !IsSelected(old(selection)) ==>
        Snapshot() == old(Snapshot()) && selection == old(selection)
      ensures input == old(input)
    {
      ghost var g := Snapshot();
      DeleteUndone(g, selection);
      if selection.NodeSel? && selection.id != "" {
        var connectedEdges := Incident(edges, selection.id);
        edges := edges - connectedEdges.Keys;
        nodes := nodes - {selection.id};
        selection := NoSelection;
      } else if selection.EdgeSel? {
        edges := WithoutId(edges, selection.edge.id);
        selection := NoSelection;
      }
    }

    /** CSV import: both DataSets are cleared, the rows are processed, and the
        collected nodes and edges are added. What was there before is gone. */
    method ImportCsv(rows: seq<CsvImport.Row>)
      modifies this
      ensures Valid()
      ensures Snapshot() == CsvImport.ImportedGraph(rows)
      ensures selection == old(selection) && input == old(input)
    {
      nodes := map[];
      edges := map[];
      var nodesToAdd, edgesToAdd := CsvImport.ImportRows(rows);
      CsvImport.EdgeListDistinctPairs(rows);
      nodes := NodesNamed(nodesToAdd);
      edges := EdgesOf(edgesToAdd);
      assert Snapshot() == CsvImport.ImportedGraph(rows);
    }

    /** `processGraph`: with no nodes it only alerts; otherwise it hands on
        the current nodes and edges as they are. */
    method ProcessGraph() returns (sent: Option<Graph>)
      ensures sent == None <==> |nodes| == 0
      ensures sent.Some? ==> sent.value == Snapshot()
    {
      if |nodes| == 0 {
        return None;
      }
      return Some(Snapshot());
    }
  }

  /** Deleting by id removes exactly the selected edge when it is still the
      one stored under its pair and no other stored edge shares its id. */
  lemma DeleteByIdIsDeleteByPair(g: Graph, e: Edge)
    requires KeyOf(e) in g.edges && g.edges[KeyOf(e)] == e
    requires forall k | k in g.edges && g.edges[k].id == e.id :: k == KeyOf(e)
    ensures WithoutId(g.edges, e.id) == DeleteStep(g, EdgeSel(e)).after.edges
  {
  }

  /** The selection is not refreshed by a CSV import. The user picked edge
      `U1` from a to b; the import then stored an a to b edge with id `a-b`;
      deleting by id leaves that edge, where deleting by pair would not. */
  lemma StaleEdgeSelectionKeepsImported()
    ensures var g := Graph(map["a" := Node("a", "a"), "b" := Node("b", "b")],
                           map[Pair("a", "b") := Edge("a-b", "a", "b", "2")]);
      && WithoutId(g.edges, "U1") == g.edges
      && DeleteStep(g, EdgeSel(Edge("U1", "a", "b", "1"))).after.edges == map[]
  {
    var es := map[Pair("a", "b") := Edge("a-b", "a", "b", "2")];
    assert es.Keys == {Pair("a", "b")};
  }
}
