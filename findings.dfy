/** The history editors' edge store as the code keeps it: a DataSet indexed by
    the edge id `from-to`. Two different ordered pairs can share that id
    ("a-b" to "c" and "a" to "b-c"); the duplicate-pair test lets the second
    through, its `addEdge` record is pushed before the network adds it, the
    add is refused because the id is taken, and undoing the record then
    removes the other edge. The rest of the model keys edges by ordered
    pair, under which every accepted edge is stored and undone exactly
    (`Editing.AddEdgeUndone`). */
module IdKeyedStore {
  import opened Js
  import opened Graphs
  import opened EdgeRules

  /** A DataSet of edges, indexed by id. */
  type IdEdges = map<string, Edge>

  /** `DataSet.add`: an item whose id is already present is refused and the
      set is left as it was. */
  function DataSetAdd(edges: IdEdges, e: Edge): (r: IdEdges)
    ensures e.id in edges ==> r == edges
    ensures e.id !in edges ==> r.Keys == edges.Keys + {e.id} && r[e.id] == e
    ensures forall k | k in edges :: k in r && r[k] == edges[k]
  {
    if e.id in edges then edges else edges[e.id := e]
  }

  /** The duplicate test of `handleAddEdge`, over the DataSet's items. */
  predicate PairPresent(edges: IdEdges, from: string, to: string) {
    exists k | k in edges :: edges[k].from == from && edges[k].to == to
  }

  datatype Outcome = Outcome(edges: IdEdges, pushed: Option<Edge>)

  /** `handleAddEdge` as written: after the pair and weight tests the record
      with id `from-to` is pushed, and then the add is attempted. */
  function AddEdgeAsWritten(edges: IdEdges, from: string, to: string,
                            weight: Option<string>, number: Parser): (r: Outcome)
    ensures r.pushed.Some? <==> !PairPresent(edges, from, to) && AcceptsWeight(number, weight)
    ensures r.pushed.Some? ==> r.pushed.value == Edge(EdgeId(from, to), from, to, weight.value)
    ensures r.pushed.Some? ==> r.edges == DataSetAdd(edges, r.pushed.value)
    ensures r.pushed.None? ==> r.edges == edges
  {
    if !PairPresent(edges, from, to) && AcceptsWeight(number, weight) then
      var e := Edge(EdgeId(from, to), from, to, weight.value);
      Outcome(DataSetAdd(edges, e), Some(e))
    else Outcome(edges, None)
  }

  /** Undoing an `addEdge` record: `networkEdges.remove(record.id)`. */
  function UndoAddEdgeAsWritten(edges: IdEdges, record: Edge): (r: IdEdges)
    ensures record.id !in r
    ensures forall k | k in edges && k != record.id :: k in r && r[k] == edges[k]
  {
    edges - {record.id}
  }

  /** When the id is free, the as-written add and its undo cancel out. */
  lemma FreshIdUndone(edges: IdEdges, from: string, to: string, weight: Option<string>, number: Parser)
    requires EdgeId(from, to) !in edges
    ensures var r := AddEdgeAsWritten(edges, from, to, weight, number);
      r.pushed.Some? ==> UndoAddEdgeAsWritten(r.edges, r.pushed.value) == edges
  {
  }

  /** The store holds an edge "a-b" to "c" under id "a-b-c"; the user adds
      "a" to "b-c" with weight "1". The record is pushed, the store does not
      change, and undoing the record deletes the "a-b" to "c" edge. */
  lemma IdCollisionUndoLosesEdge(number: Parser)
    requires number("1") == Finite(1.0)
    ensures var before := map["a-b-c" := Edge("a-b-c", "a-b", "c", "1")];
      var r := AddEdgeAsWritten(before, "a", "b-c", Some("1"), number);
      && r.pushed == Some(Edge("a-b-c", "a", "b-c", "1"))
      && r.edges == before
      && UndoAddEdgeAsWritten(r.edges, r.pushed.value) == map[]
      && UndoAddEdgeAsWritten(r.edges, r.pushed.value) != before
  {
    var before := map["a-b-c" := Edge("a-b-c", "a-b", "c", "1")];
    assert EdgeId("a-b", "c") == "a-b-c";
    assert EdgeId("a", "b-c") == "a-b-c";
    assert !PairPresent(before, "a", "b-c") by {
      assert before.Keys == {"a-b-c"};
      assert "a-b" != "a";
    }
    assert "a-b-c" in before;
  }
}
