/** The three graph payloads: what the builders send to be processed
    (`sendGraphToBackend`, `processGraphData`), what the saved-graph editor
    builds from a stored graph when it loads, and what it sends when it saves. */
module Transport {
  import opened Js
  import opened Graphs

  /** A stored graph as the backend returns it; an edge's weight may be missing. */
  datatype StoredNode = StoredNode(caption: string)
  datatype StoredEdge = StoredEdge(from: string, to: string, weight: Option<real>)

  /** The wire shape: nodes carry only their label. */
  datatype WireNode = WireNode(caption: string)
  datatype WireEdge = WireEdge(from: string, to: string, weight: Num)
  datatype Payload = Payload(nodes: seq<WireNode>, edges: seq<WireEdge>)

  /** `weight: parseFloat(edge.label) || 1`. */
  function WireWeight(caption: string, parseFloat: Parser): Num {
    OrOne(parseFloat(caption))
  }

  /** The processing payload: nodes become `{label}`, edges `{from, to,
      weight}`, in order; the weight is the parsed label when that is a
      nonzero number and 1 when it is NaN, 0 or -0. */
  function ToWirePayload(nodes: seq<Node>, edges: seq<Edge>, parseFloat: Parser): (p: Payload)
    ensures |p.nodes| == |nodes|
    ensures forall i | 0 <= i < |nodes| :: p.nodes[i].caption == nodes[i].caption
    ensures |p.edges| == |edges|
    ensures forall i | 0 <= i < |edges| :: p.edges[i].from == edges[i].from && p.edges[i].to == edges[i].to
    ensures forall i | 0 <= i < |edges| :: !p.edges[i].weight.NaN? && p.edges[i].weight != Finite(0.0)
    ensures forall i | 0 <= i < |edges| ::
              var n := parseFloat(edges[i].caption);
              (!n.NaN? && n != Finite(0.0) ==> p.edges[i].weight == n) &&
              (n.NaN? || n == Finite(0.0) ==> p.edges[i].weight == Finite(1.0))
  {
    Payload(seq(|nodes|, i requires 0 <= i < |nodes| => WireNode(nodes[i].caption)),
            seq(|edges|, i requires 0 <= i < |edges| =>
                  WireEdge(edges[i].from, edges[i].to, WireWeight(edges[i].caption, parseFloat))))
  }

  /** A zero weight typed in the editor is sent as 1. */
  lemma ZeroWeightSentAsOne(e: Edge, parseFloat: Parser)
    requires parseFloat(e.caption) == Finite(0.0)
    ensures ToWirePayload([], [e], parseFloat).edges == [WireEdge(e.from, e.to, Finite(1.0))]
  {
  }

  /** `String(weight)`: a missing weight renders as "undefined". */
  function JsString(w: Option<real>, str: real -> string): string {
    if w.Some? then str(w.value) else "undefined"
  }

  function Labels(ns: seq<StoredNode>): (r: seq<string>)
    ensures |r| == |ns| && forall i | 0 <= i < |ns| :: r[i] == ns[i].caption
  {
    seq(|ns|, i requires 0 <= i < |ns| => ns[i].caption)
  }

  /** Loading a stored graph: nodes become `{id: label, label}`. */
  function LoadNodes(ns: seq<StoredNode>): (r: seq<Node>)
    ensures |r| == |ns|
    ensures forall i | 0 <= i < |ns| :: r[i].id == r[i].caption == ns[i].caption
  {
    seq(|ns|, i requires 0 <= i < |ns| => Node(ns[i].caption, ns[i].caption))
  }

  /** Loading a stored graph: edges become `{id: from-to, from, to, label:
      String(weight)}`. */
  function LoadEdges(es: seq<StoredEdge>, str: real -> string): (r: seq<Edge>)
    ensures |r| == |es|
    ensures forall i | 0 <= i < |es| ::
              r[i].id == EdgeId(es[i].from, es[i].to) && KeyOf(r[i]) == Pair(es[i].from, es[i].to)
    ensures forall i | 0 <= i < |es| :: r[i].caption == JsString(es[i].weight, str)
  {
    seq(|es|, i requires 0 <= i < |es| =>
          Edge(EdgeId(es[i].from, es[i].to), es[i].from, es[i].to, JsString(es[i].weight, str)))
  }

  /** Saving: every edge, in order, as `{from, to, weight: Number(label)}`. */
  function SaveEdges(edges: seq<Edge>, number: Parser): (r: seq<WireEdge>)
    ensures |r| == |edges|
    ensures forall i | 0 <= i < |edges| :: r[i] == WireEdge(edges[i].from, edges[i].to, number(edges[i].caption))
  {
    seq(|edges|, i requires 0 <= i < |edges| => WireEdge(edges[i].from, edges[i].to, number(edges[i].caption)))
  }

  /** Load then save gives back every edge's endpoints and weight, provided
      `Number(String(w))` is `w` for the stored weights. */
  lemma LoadThenSave(es: seq<StoredEdge>, str: real -> string, number: Parser)
    requires forall i | 0 <= i < |es| ::
               es[i].weight.Some? && number(str(es[i].weight.value)) == Finite(es[i].weight.value)
    ensures var saved := SaveEdges(LoadEdges(es, str), number);
      && |saved| == |es|
      && forall i | 0 <= i < |es| ::
           saved[i] == WireEdge(es[i].from, es[i].to, Finite(es[i].weight.value))
  {
  }
}
