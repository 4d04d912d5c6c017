/** The editing operations every editor performs on its graph, each as a
    step that is refused or yields the new graph and the history record the
    history-keeping editors push; and the theorem that undo inverts them. */
module Editing {
  import opened Js
  import opened Graphs
  import opened Selections
  import opened EdgeRules
  import opened Commands

  datatype Reason = NameRefused(name: NameVerdict) | EdgeRefused(edge: EdgeVerdict) | NothingSelected | Declined

  datatype Step = Refused(reason: Reason) | Done(after: Graph, record: Command)

  /** `addNode`: a blank or used name changes nothing; otherwise the
      untrimmed name becomes id and label of one new node. */
  function AddNodeStep(g: Graph, name: string): (s: Step)
    ensures s.Done? <==> !AllWhitespace(name) && name !in g.nodes
    ensures s.Refused? ==> s.reason.NameRefused? && s.reason.name != FreshName
    ensures s.Done? ==> s.record == AddNodeCmd(Node(name, name))
    ensures s.Done? ==> s.after.edges == g.edges && s.after.nodes.Keys == g.nodes.Keys + {name}
    ensures s.Done? ==> forall id | id in g.nodes :: s.after.nodes[id] == g.nodes[id]
  {
    var v := JudgeNodeName(g.nodes, name);
    if v == FreshName then
      var n := Node(name, name);
      Done(g.(nodes := g.nodes[name := n]), AddNodeCmd(n))
    else Refused(NameRefused(v))
  }

  /** `handleAddEdge` (and the `addEdge` callback of the editors without
      history): the new edge gets the id `id` and the typed weight as
      caption; nodes never change. */
  function AddEdgeStep(g: Graph, from: string, to: string, weight: Option<string>,
                       number: Parser, id: string): (s: Step)
    ensures s.Done? <==> !IsDuplicate(g.edges, from, to) && AcceptsWeight(number, weight)
    ensures s.Done? ==> s.record == AddEdgeCmd(Edge(id, from, to, weight.value))
    ensures s.Done? ==> s.after.nodes == g.nodes
    ensures s.Done? ==> s.after.edges.Keys == g.edges.Keys + {Pair(from, to)}
    ensures s.Done? ==> s.after.edges[Pair(from, to)] == Edge(id, from, to, weight.value)
    ensures s.Done? ==> forall k | k in g.edges && k != Pair(from, to) :: s.after.edges[k] == g.edges[k]
  {
    match JudgeEdge(g.edges, from, to, weight, number)
    case Accepted(c) =>
      var e := Edge(id, from, to, c);
      Done(g.(edges := g.edges[Pair(from, to) := e]), AddEdgeCmd(e))
    case v => Refused(EdgeRefused(v))
  }

  /** `deleteSelected`: nothing selected changes nothing; a node goes with
      exactly its incident edges, as one record; an edge goes alone. */
  function DeleteStep(g: Graph, sel: Selection): (s: Step)
    ensures s.Refused? <==> !IsSelected(sel)
    ensures s.Refused? ==> s.reason == NothingSelected
    ensures sel.NodeSel? && s.Done? ==>
              && s.after.nodes.Keys == g.nodes.Keys - {sel.id}
              && s.record == DeleteNodeCmd(Lookup(g.nodes, sel.id), Incident(g.edges, sel.id))
              && (forall k | k in g.edges ::
                    k in s.after.edges <==> g.edges[k].from != sel.id && g.edges[k].to != sel.id)
    ensures sel.EdgeSel? ==>
              && s.after.nodes == g.nodes
              && s.after.edges.Keys == g.edges.Keys - {KeyOf(sel.edge)}
              && s.record == DeleteEdgeCmd(Lookup(g.edges, KeyOf(sel.edge)))
    ensures s.Done? ==> forall k | k in s.after.edges :: k in g.edges && s.after.edges[k] == g.edges[k]
    ensures s.Done? ==> forall id | id in s.after.nodes :: id in g.nodes && s.after.nodes[id] == g.nodes[id]
  {
    if !IsSelected(sel) then Refused(NothingSelected)
    else match sel
      case NodeSel(id) =>
        var inc := Incident(g.edges, id);
        Done(Graph(g.nodes - {id}, g.edges - inc.Keys), DeleteNodeCmd(Lookup(g.nodes, id), inc))
      case EdgeSel(e) =>
        Done(g.(edges := g.edges - {KeyOf(e)}), DeleteEdgeCmd(Lookup(g.edges, KeyOf(e))))
  }

  /** `clearGraph`: a declined confirm changes nothing; otherwise one record
      snapshots the graph and the graph becomes empty. */
  function ClearStep(g: Graph, confirmed: bool): (s: Step)
    ensures s.Done? <==> confirmed
    ensures s.Done? ==> s.after == EmptyGraph && s.record == ClearCmd(g.nodes, g.edges)
  {
    if confirmed then Done(EmptyGraph, ClearCmd(g.nodes, g.edges)) else Refused(Declined)
  }

  /** The partner of every step: a recorded step leaves a well-formed graph,
      its record can be undone, and undoing it gives back exactly the graph
      before the step. */
  ghost predicate Invertible(g: Graph, s: Step) {
    s.Done? ==> WellFormed(s.after) && CanRevert(s.after, s.record) && Revert(s.after, s.record) == g
  }

  lemma AddNodeUndone(g: Graph, name: string)
    requires WellFormed(g)
    ensures Invertible(g, AddNodeStep(g, name))
  {
    var s := AddNodeStep(g, name);
    if s.Done? {
      assert Revert(s.after, s.record).nodes == g.nodes;
    }
  }

  /** Both endpoints must be nodes for the result to have no dangling edge;
      the rendering layer only proposes edges between drawn nodes. */
  lemma AddEdgeUndone(g: Graph, from: string, to: string, weight: Option<string>, number: Parser, id: string)
    requires WellFormed(g) && from in g.nodes && to in g.nodes
    ensures Invertible(g, AddEdgeStep(g, from, to, weight, number, id))
  {
    var s := AddEdgeStep(g, from, to, weight, number, id);
    if s.Done? {
      DuplicateIsPairMembership(g.edges, from, to);
      assert Revert(s.after, s.record).edges == g.edges;
    }
  }

  lemma DeleteUndone(g: Graph, sel: Selection)
    requires WellFormed(g)
    ensures Invertible(g, DeleteStep(g, sel))
  {
    match sel
    case NoSelection =>
    case NodeSel(id) => if id != "" { DeleteNodeUndone(g, id); }
    case EdgeSel(e) => DeleteEdgeUndone(g, e);
  }

  lemma DeleteNodeUndone(g: Graph, id: string)
    requires WellFormed(g) && id != ""
    ensures Invertible(g, DeleteStep(g, NodeSel(id)))
  {
    if id in g.nodes {
      DeleteLiveNodeUndone(g, id);
    } else {
      DeleteStaleNodeUndone(g, id);
    }
  }

  /** Taking a sub-map's keys out and adding the sub-map back is the identity. */
  lemma SubMapRestored<K, V>(m: map<K, V>, sub: map<K, V>)
    requires forall k | k in sub :: k in m && sub[k] == m[k]
    ensures (m - sub.Keys) + sub == m
  {
  }

  lemma DeleteLiveNodeUndone(g: Graph, id: string)
    requires WellFormed(g) && id != "" && id in g.nodes
    ensures Invertible(g, DeleteStep(g, NodeSel(id)))
  {
    var s := DeleteStep(g, NodeSel(id));
    var inc := Incident(g.edges, id);
    assert s.after == Graph(g.nodes - {id}, g.edges - inc.Keys);
    assert s.record == DeleteNodeCmd(Some(g.nodes[id]), inc);
    SubMapRestored(g.edges, inc);
    assert (g.nodes - {id})[id := g.nodes[id]] == g.nodes;
  }

  lemma DeleteStaleNodeUndone(g: Graph, id: string)
    requires WellFormed(g) && id != "" && id !in g.nodes
    ensures Invertible(g, DeleteStep(g, NodeSel(id)))
  {
    var inc := Incident(g.edges, id);
    assert inc == map[] by {
      forall k | k in g.edges ensures k !in inc {
        assert KeyOf(g.edges[k]) == k;
      }
    }
    assert DeleteStep(g, NodeSel(id)).after.edges == g.edges;
  }

  lemma DeleteEdgeUndone(g: Graph, e: Edge)
    requires WellFormed(g)
    ensures Invertible(g, DeleteStep(g, EdgeSel(e)))
  {
    var s := DeleteStep(g, EdgeSel(e));
    if KeyOf(e) in g.edges {
      assert Revert(s.after, s.record).edges == g.edges;
    } else {
      assert s.after.edges == g.edges;
    }
  }

  lemma ClearUndone(g: Graph, confirmed: bool)
    requires WellFormed(g)
    ensures Invertible(g, ClearStep(g, confirmed))
  {
    var s := ClearStep(g, confirmed);
    if s.Done? {
      assert Revert(s.after, s.record).nodes == g.nodes;
      assert Revert(s.after, s.record).edges == g.edges;
    }
  }

  /** A user intent, as the history-keeping editors receive it. */
  datatype Op =
    | AddNodeOp(name: string)
    | AddEdgeOp(from: string, to: string, weight: Option<string>)
    | DeleteOp(sel: Selection)
    | ClearOp(confirmed: bool)

  /** The history-keeping editors id every new edge `${from}-${to}`. */
  function Apply(g: Graph, op: Op, number: Parser): Step {
    match op
    case AddNodeOp(name) => AddNodeStep(g, name)
    case AddEdgeOp(from, to, w) => AddEdgeStep(g, from, to, w, number, EdgeId(from, to))
    case DeleteOp(sel) => DeleteStep(g, sel)
    case ClearOp(c) => ClearStep(g, c)
  }

  /** The rendering layer offers edges only between existing nodes. */
  ghost predicate Proposable(g: Graph, op: Op) {
    op.AddEdgeOp? ==> op.from in g.nodes && op.to in g.nodes
  }

  lemma ApplyUndone(g: Graph, op: Op, number: Parser)
    requires WellFormed(g) && Proposable(g, op)
    ensures Invertible(g, Apply(g, op, number))
  {
    match op
    case AddNodeOp(name) => AddNodeUndone(g, name);
    case AddEdgeOp(from, to, w) => AddEdgeUndone(g, from, to, w, number, EdgeId(from, to));
    case DeleteOp(sel) => DeleteUndone(g, sel);
    case ClearOp(c) => ClearUndone(g, c);
  }

  /** The graph after one intent; a refused one leaves it as it was. */
  function Next(g: Graph, op: Op, number: Parser): Graph {
    var s := Apply(g, op, number);
    if s.Done? then s.after else g
  }

  /** One intent: a refused one changes neither graph nor history. */
  function Advance(g: Graph, h: seq<Command>, op: Op, number: Parser): (Graph, seq<Command>) {
    var s := Apply(g, op, number);
    (Next(g, op, number), if s.Done? then h + [s.record] else h)
  }

  /** Graph and history after a sequence of intents. */
  function Run(g: Graph, h: seq<Command>, ops: seq<Op>, number: Parser): (Graph, seq<Command>)
    decreases |ops|
  {
    if ops == [] then (g, h)
    else
      var a := Advance(g, h, ops[0], number);
      Run(a.0, a.1, ops[1..], number)
  }

  /** Every intent in the sequence is one the rendering layer can issue. */
  ghost predicate Feasible(g: Graph, ops: seq<Op>, number: Parser)
    decreases |ops|
  {
    ops == [] || (Proposable(g, ops[0]) && Feasible(Next(g, ops[0], number), ops[1..], number))
  }

  /** One intent keeps the stack unwindable and can itself be undone. */
  lemma AdvanceUndone(g: Graph, h: seq<Command>, op: Op, number: Parser)
    requires Replayable(g, h) && Proposable(g, op)
    ensures var (g1, h1) := Advance(g, h, op, number);
      && Replayable(g1, h1)
      && ((h1 == h && g1 == g) || (h1 == h + [h1[|h1| - 1]] && UndoTimes(g1, h1, 1) == (g, h)))
  {
    ApplyUndone(g, op, number);
    var s := Apply(g, op, number);
    if s.Done? {
      PushKeepsReplayable(g, h, s.after, s.record);
    }
  }

  /** The first intent of a feasible run keeps the stack unwindable, can be
      undone, and leaves a feasible rest. */
  lemma FirstStep(g: Graph, h: seq<Command>, ops: seq<Op>, number: Parser)
    returns (g1: Graph, h1: seq<Command>)
    requires Replayable(g, h)
    requires ops != [] && Feasible(g, ops, number)
    ensures Replayable(g1, h1) && Feasible(g1, ops[1..], number)
    ensures (h1 == h && g1 == g) || (|h1| > 0 && h1 == h + [h1[|h1| - 1]] && UndoTimes(g1, h1, 1) == (g, h))
    ensures Run(g, h, ops, number) == Run(g1, h1, ops[1..], number)
  {
    AdvanceUndone(g, h, ops[0], number);
    g1, h1 := Advance(g, h, ops[0], number).0, Advance(g, h, ops[0], number).1;
  }

  /** From `r`, undoing the records pushed on top of `h` returns to `g` and
      `h`, through well-formed graphs only. */
  ghost predicate UndoesTo(r: (Graph, seq<Command>), g: Graph, h: seq<Command>) {
    && |r.1| >= |h| && r.1[..|h|] == h
    && Replayable(r.0, r.1)
    && UndoTimes(r.0, r.1, |r.1| - |h|) == (g, h)
  }

  /** Undoing the rest of a run and then the first intent's record undoes the
      whole run. */
  lemma UndoPrefixThenFirst(g: Graph, h: seq<Command>, g1: Graph, h1: seq<Command>,
                            r: (Graph, seq<Command>))
    requires (h1 == h && g1 == g) || (|h1| > 0 && h1 == h + [h1[|h1| - 1]] && UndoTimes(g1, h1, 1) == (g, h))
    requires UndoesTo(r, g1, h1)
    ensures UndoesTo(r, g, h)
  {
    var (g', h') := r;
    if h1 != h {
      assert |h1| == |h| + 1;
      assert h'[..|h|] == h1[..|h|] == h;
      UndoTimesAdd(g', h', |h'| - |h1|, 1);
      assert |h'| - |h| == |h'| - |h1| + 1;
    }
  }

  /** Any sequence of intents followed by as many undos as it recorded gives
      back the exact graph and history it started from. */
  lemma {:induction false} RunThenUndoAll(g: Graph, h: seq<Command>, ops: seq<Op>, number: Parser)
    requires Replayable(g, h)
    requires Feasible(g, ops, number)
    ensures UndoesTo(Run(g, h, ops, number), g, h)
    decreases |ops|
  {
    if ops == [] {
      assert Run(g, h, ops, number) == (g, h);
    } else {
      var g1, h1 := FirstStep(g, h, ops, number);
      RunThenUndoAll(g1, h1, ops[1..], number);
      UndoPrefixThenFirst(g, h, g1, h1, Run(g1, h1, ops[1..], number));
    }
  }
}
