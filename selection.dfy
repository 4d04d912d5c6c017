/** The `selectedItem`/`selectedItemType` pair every editor keeps, and the
    network's click handler that sets it. */
module Selections {
  import opened Graphs

  /** A node is selected by its id; an edge by the edge object the click
      looked up. */
  datatype Selection = NoSelection | NodeSel(id: string) | EdgeSel(edge: Edge)

  /** The click handler: the first node hit wins over any edge hit; otherwise
      the first edge hit is looked up (an id that no longer resolves gives a
      null item, which is nothing selected); a background click clears. */
  function OnClick(edges: map<Pair, Edge>, nodeHits: seq<string>, edgeHits: seq<Pair>): (s: Selection)
    ensures |nodeHits| > 0 ==> s == NodeSel(nodeHits[0])
    ensures |nodeHits| == 0 && |edgeHits| > 0 && edgeHits[0] in edges ==> s == EdgeSel(edges[edgeHits[0]])
    ensures s == NoSelection <==> |nodeHits| == 0 && (|edgeHits| == 0 || edgeHits[0] !in edges)
  {
    if |nodeHits| > 0 then NodeSel(nodeHits[0])
    else if |edgeHits| > 0 && edgeHits[0] in edges then EdgeSel(edges[edgeHits[0]])
    else NoSelection
  }

  /** What `if (selectedItem)` lets through: a node id is a string, and the
      empty string is falsy. */
  predicate IsSelected(s: Selection) {
    match s
    case NoSelection => false
    case NodeSel(id) => id != ""
    case EdgeSel(_) => true
  }
}
