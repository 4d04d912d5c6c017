/** The undo history of the two history-keeping editors: the five record
    kinds, the inverse `undo` applies to each, and the invariant that the
    whole stack can be unwound. */
module Commands {
  import opened Js
  import opened Graphs

  /** One history entry. `DeleteNodeCmd` holds `networkNodes.get(id)`,
      which is null when the selected id was already gone, and the incident
      edges; `DeleteEdgeCmd` holds `networkEdges.get(id)` likewise;
      `ClearCmd` holds the whole graph. */
  datatype Command =
    | AddNodeCmd(node: Node)
    | AddEdgeCmd(edge: Edge)
    | DeleteNodeCmd(removed: Option<Node>, incident: map<Pair, Edge>)
    | DeleteEdgeCmd(removedEdge: Option<Edge>)
    | ClearCmd(nodes: map<string, Node>, edges: map<Pair, Edge>)

  /** `DataSet.add` refuses an id that is present, so undoing a deletion or a
      clear needs the items it re-adds to be absent. */
  predicate CanRevert(g: Graph, c: Command) {
    match c
    case DeleteNodeCmd(Some(n), inc) => n.id !in g.nodes && inc.Keys !! g.edges.Keys
    case DeleteEdgeCmd(Some(e)) => KeyOf(e) !in g.edges
    case ClearCmd(ns, es) => ns.Keys !! g.nodes.Keys && es.Keys !! g.edges.Keys
    case _ => true
  }

  /** The `switch` in `undo`: an addition is removed by its key (with no
      cascade), a deletion or clear is re-added. A null record makes
      `add(null)` throw before anything is re-added. */
  function Revert(g: Graph, c: Command): Graph {
    match c
    case AddNodeCmd(n) => g.(nodes := g.nodes - {n.id})
    case AddEdgeCmd(e) => g.(edges := g.edges - {KeyOf(e)})
    case DeleteNodeCmd(None, _) => g
    case DeleteNodeCmd(Some(n), inc) => Graph(g.nodes[n.id := n], g.edges + inc)
    case DeleteEdgeCmd(None) => g
    case DeleteEdgeCmd(Some(e)) => g.(edges := g.edges[KeyOf(e) := e])
    case ClearCmd(ns, es) => Graph(g.nodes + ns, g.edges + es)
  }

  /** Undoing the records one by one, newest first, is always possible and
      passes only through well-formed graphs. */
  ghost predicate Replayable(g: Graph, h: seq<Command>)
    decreases |h|
  {
    && WellFormed(g)
    && (|h| > 0 ==>
          && CanRevert(g, h[|h| - 1])
          && Replayable(Revert(g, h[|h| - 1]), h[..|h| - 1]))
  }

  /** `n` presses of undo, each popping the newest record. */
  function UndoTimes(g: Graph, h: seq<Command>, n: nat): (r: (Graph, seq<Command>))
    requires n <= |h|
    ensures r.1 == h[..|h| - n]
    decreases n
  {
    if n == 0 then (g, h)
    else UndoTimes(Revert(g, h[|h| - 1]), h[..|h| - 1], n - 1)
  }

  /** Pushing a record whose inverse leads back to the current graph keeps
      the stack unwindable. */
  lemma PushKeepsReplayable(g: Graph, h: seq<Command>, after: Graph, c: Command)
    requires Replayable(g, h)
    requires WellFormed(after) && CanRevert(after, c) && Revert(after, c) == g
    ensures Replayable(after, h + [c])
    ensures UndoTimes(after, h + [c], 1) == (g, h)
  {
    var h' := h + [c];
    assert h'[..|h'| - 1] == h;
  }

  /** Once the stack is unwindable, so is what popping leaves. */
  lemma PopKeepsReplayable(g: Graph, h: seq<Command>)
    requires Replayable(g, h) && |h| > 0
    ensures Replayable(Revert(g, h[|h| - 1]), h[..|h| - 1])
  {
  }

  /** `a` presses then `b` presses are `a + b` presses. */
  lemma {:induction false} UndoTimesAdd(g: Graph, h: seq<Command>, a: nat, b: nat)
    requires a + b <= |h|
    ensures UndoTimes(g, h, a + b) == UndoTimes(UndoTimes(g, h, a).0, UndoTimes(g, h, a).1, b)
    decreases a
  {
    if a > 0 {
      UndoTimesAdd(Revert(g, h[|h| - 1]), h[..|h| - 1], a - 1, b);
    }
  }
}
