/** The editors' graph: the node DataSet and the edge DataSet, with edges
    keyed by their ordered endpoint pair. */
module Graphs {
  import opened Js

  /** A node; every editor stores the user's name as both id and caption.
      `caption` is vis-network's `label` field (`label` is a Dafny keyword). */
  datatype Node = Node(id: string, caption: string)

  /** An edge as the editors store it; `caption` is the weight as typed. */
  datatype Edge = Edge(id: string, from: string, to: string, caption: string)

  /** The directed key of an edge. */
  datatype Pair = Pair(from: string, to: string)

  function KeyOf(e: Edge): Pair {
    Pair(e.from, e.to)
  }

  /** The string id `${from}-${to}` the editors give an edge. */
  function EdgeId(from: string, to: string): string {
    from + "-" + to
  }

  /** The string id does not determine the pair: names may contain `-`. */
  lemma EdgeIdNotInjective()
    ensures Pair("a-b", "c") != Pair("a", "b-c")
    ensures EdgeId("a-b", "c") == EdgeId("a", "b-c") == "a-b-c"
  {
  }

  /** The text before the first `-`, or all of it when there is none. */
  function BeforeDash(s: string): (r: string)
    ensures r <= s
    ensures '-' !in r
  {
    if s == [] || s[0] == '-' then [] else [s[0]] + BeforeDash(s[1..])
  }

  /** A source name without `-` is recovered from the id. */
  lemma {:induction false} BeforeDashOfId(from: string, to: string)
    requires '-' !in from
    ensures BeforeDash(EdgeId(from, to)) == from
    decreases |from|
  {
    if from != [] {
      assert EdgeId(from, to)[1..] == EdgeId(from[1..], to);
      BeforeDashOfId(from[1..], to);
    }
  }

  /** When source names contain no `-`, the id determines the pair. */
  lemma EdgeIdInjectiveWithoutDash(a: Pair, b: Pair)
    requires '-' !in a.from && '-' !in b.from
    ensures EdgeId(a.from, a.to) == EdgeId(b.from, b.to) <==> a == b
  {
    if EdgeId(a.from, a.to) == EdgeId(b.from, b.to) {
      var s := EdgeId(a.from, a.to);
      BeforeDashOfId(a.from, a.to);
      BeforeDashOfId(b.from, b.to);
      assert a.to == s[|a.from| + 1..];
      assert b.to == s[|b.from| + 1..];
    }
  }

  datatype Graph = Graph(nodes: map<string, Node>, edges: map<Pair, Edge>)

  const EmptyGraph: Graph := Graph(map[], map[])

  /** Node ids are their labels, each edge sits under its own pair, and no
      edge dangles. */
  ghost predicate WellFormed(g: Graph) {
    && (forall id | id in g.nodes :: g.nodes[id] == Node(id, id))
    && (forall k | k in g.edges :: KeyOf(g.edges[k]) == k)
    && (forall k | k in g.edges :: k.from in g.nodes && k.to in g.nodes)
  }

  /** `edges.get({filter: e => e.from === id || e.to === id})`. */
  function Incident(edges: map<Pair, Edge>, id: string): (inc: map<Pair, Edge>)
    ensures inc.Keys <= edges.Keys
    ensures forall k | k in edges :: k in inc <==> (edges[k].from == id || edges[k].to == id)
    ensures forall k | k in inc :: inc[k] == edges[k]
  {
    map k | k in edges && (edges[k].from == id || edges[k].to == id) :: edges[k]
  }

  /** `edges.remove(id)`: every stored edge carrying that id goes, whatever
      its pair; the rest stay as they were. */
  function WithoutId(edges: map<Pair, Edge>, id: string): (r: map<Pair, Edge>)
    ensures forall k | k in edges :: k in r <==> edges[k].id != id
    ensures forall k | k in r :: k in edges && r[k] == edges[k]
  {
    map k | k in edges && edges[k].id != id :: edges[k]
  }

  /** `DataSet.get(id)`: the item, or null. */
  function Lookup<K, V>(m: map<K, V>, k: K): (r: Option<V>)
    ensures r.Some? <==> k in m
    ensures r.Some? ==> r.value == m[k]
  {
    if k in m then Some(m[k]) else None
  }

  /** The node DataSet holding `{id: n, label: n}` for each name `n`. */
  function NodesNamed(names: seq<string>): (m: map<string, Node>)
    ensures m.Keys == set n | n in names
    ensures forall n | n in m :: m[n] == Node(n, n)
  {
    map n | n in names :: Node(n, n)
  }

  ghost predicate DistinctPairs(es: seq<Edge>) {
    forall i, j | 0 <= i < j < |es| :: KeyOf(es[i]) != KeyOf(es[j])
  }

  /** The edge DataSet after adding the array `es` to an empty one. */
  function EdgesOf(es: seq<Edge>): (m: map<Pair, Edge>)
    requires DistinctPairs(es)
    ensures m.Keys == set e | e in es :: KeyOf(e)
    ensures forall i | 0 <= i < |es| :: m[KeyOf(es[i])] == es[i]
    ensures forall k | k in m :: KeyOf(m[k]) == k && m[k] in es
  {
    map e | e in es :: KeyOf(e) := e
  }
}
