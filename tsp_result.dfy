/** The TSP result page: the fetched adjacency list turned into nodes, edges
    and an id-keyed edge table; the tour's edges looked up in that table;
    and the tour length summed from the adjacency list. */
module TspResult {
  import opened Js
  import opened Graphs

  /** `adjacencyList[from][to] = {weight}`, in the object's entry order.
      The entries stand for the keys of a JavaScript object, so a list that
      comes from the server has distinct keys at both levels. Nothing below
      needs that: `FindEntry` would take the first of repeated keys. The
      edge table's last-write-wins (`MapOfList`) is about repeated edge ids
      `from-to`, which distinct keys can still produce. */
  datatype Target = Target(to: string, weight: real)
  datatype AdjEntry = AdjEntry(key: string, targets: seq<Target>)
  type AdjList = seq<AdjEntry>

  /** An `edgeMap` value. */
  datatype EdgeData = EdgeData(from: string, to: string, weight: real)

  /** An edge object as both helpers build it: `{id, from, to, label,
      weight, title}`. */
  datatype ResultEdge = ResultEdge(id: string, from: string, to: string, caption: string, weight: real, title: string)

  /** `label: weight.toString()` and ``title: `Weight: ${weight}` ``. */
  function MakeEdge(id: string, from: string, to: string, w: real, str: real -> string): ResultEdge {
    ResultEdge(id, from, to, str(w), w, "Weight: " + str(w))
  }

  function Data(e: ResultEdge): EdgeData {
    EdgeData(e.from, e.to, e.weight)
  }

  // ---------------------------------------------------------------------
  // createTSPPathEdges

  /** `edgeMap[`${from}-${to}`] || edgeMap[`${to}-${from}`]`: the forward
      entry when there is one, else the reverse one. */
  function SegmentData(m: map<string, EdgeData>, from: string, to: string): (d: Option<EdgeData>)
    ensures EdgeId(from, to) in m ==> d == Some(m[EdgeId(from, to)])
    ensures EdgeId(from, to) !in m && EdgeId(to, from) in m ==> d == Some(m[EdgeId(to, from)])
    ensures d.None? <==> EdgeId(from, to) !in m && EdgeId(to, from) !in m
  {
    if EdgeId(from, to) in m then Some(m[EdgeId(from, to)])
    else if EdgeId(to, from) in m then Some(m[EdgeId(to, from)])
    else None
  }

  /** `tsp-${i}`. */
  function TspId(i: nat): string {
    "tsp-" + NatToString(i)
  }

  /** Each tour segment's edge gets an id of its own. */
  lemma TspIdsDistinct(i: nat, j: nat)
    ensures TspId(i) == TspId(j) <==> i == j
  {
    if TspId(i) == TspId(j) {
      assert NatToString(i) == TspId(i)[4..];
      assert NatToString(j) == TspId(j)[4..];
      NatToStringInjective(i, j);
    }
  }

  /** The edge segment `i` contributes, when it has table data. */
  function SegmentEdge(p: seq<string>, m: map<string, EdgeData>, str: real -> string, i: nat): ResultEdge
    requires i + 1 < |p| && SegmentData(m, p[i], p[i + 1]).Some?
  {
    MakeEdge(TspId(i), p[i], p[i + 1], SegmentData(m, p[i], p[i + 1]).value.weight, str)
  }

  /** The edges of the first `k` segments of the tour. */
  function Segments(p: seq<string>, m: map<string, EdgeData>, str: real -> string, k: nat): seq<ResultEdge>
    requires k < |p|
    decreases k
  {
    if k == 0 then []
    else
      var prev := Segments(p, m, str, k - 1);
      if SegmentData(m, p[k - 1], p[k]).Some? then prev + [SegmentEdge(p, m, str, k - 1)] else prev
  }

  /** How many of the first `k` segments find an edge, in either direction. */
  ghost function Hits(p: seq<string>, m: map<string, EdgeData>, k: nat): nat
    requires k < |p|
    decreases k
  {
    if k == 0 then 0
    else Hits(p, m, k - 1) + (if SegmentData(m, p[k - 1], p[k]).Some? then 1 else 0)
  }

  lemma {:induction false} SegmentsSound(p: seq<string>, m: map<string, EdgeData>, str: real -> string, k: nat)
    requires k < |p|
    ensures |Segments(p, m, str, k)| == Hits(p, m, k) <= k
    ensures forall e | e in Segments(p, m, str, k) ::
              exists i: nat | i < k && SegmentData(m, p[i], p[i + 1]).Some? :: e == SegmentEdge(p, m, str, i)
    decreases k
  {
    if k > 0 {
      SegmentsSound(p, m, str, k - 1);
    }
  }

  lemma {:induction false} SegmentsComplete(p: seq<string>, m: map<string, EdgeData>, str: real -> string, k: nat, i: nat)
    requires k < |p| && i < k && SegmentData(m, p[i], p[i + 1]).Some?
    ensures SegmentEdge(p, m, str, i) in Segments(p, m, str, k)
    decreases k
  {
    if i < k - 1 {
      SegmentsComplete(p, m, str, k - 1, i);
    }
  }

  /** The tour's edges: none for a missing tour or one of at most one stop;
      otherwise at most one per segment. */
  function PathEdges(path: Option<seq<string>>, m: map<string, EdgeData>, str: real -> string): (r: seq<ResultEdge>)
    ensures path.None? || |path.value| <= 1 ==> r == []
    ensures path.Some? && |path.value| > 1 ==> |r| <= |path.value| - 1
  {
    if path.None? || |path.value| <= 1 then []
    else
      var p := path.value;
      SegmentsSound(p, m, str, |p| - 1);
      Segments(p, m, str, |p| - 1)
  }

  /** A segment yields its edge exactly when its table holds the forward or
      the reverse id, and every edge is one segment's; the count is the
      number of such segments. */
  lemma PathEdgesAreSegments(p: seq<string>, m: map<string, EdgeData>, str: real -> string)
    requires |p| > 1
    ensures forall i: nat | i < |p| - 1 && (EdgeId(p[i], p[i + 1]) in m || EdgeId(p[i + 1], p[i]) in m) ::
              SegmentEdge(p, m, str, i) in PathEdges(Some(p), m, str)
    ensures forall e | e in PathEdges(Some(p), m, str) ::
              exists i: nat | i < |p| - 1 && SegmentData(m, p[i], p[i + 1]).Some? :: e == SegmentEdge(p, m, str, i)
    ensures |PathEdges(Some(p), m, str)| == Hits(p, m, |p| - 1)
  {
    SegmentsSound(p, m, str, |p| - 1);
    forall i: nat | i < |p| - 1 && (EdgeId(p[i], p[i + 1]) in m || EdgeId(p[i + 1], p[i]) in m)
      ensures SegmentEdge(p, m, str, i) in PathEdges(Some(p), m, str)
    {
      SegmentsComplete(p, m, str, |p| - 1, i);
    }
  }

  /** The forward id wins over the reverse one. */
  lemma ForwardPreferred(m: map<string, EdgeData>, from: string, to: string)
    requires EdgeId(from, to) in m && EdgeId(to, from) in m
    ensures SegmentData(m, from, to) == Some(m[EdgeId(from, to)])
  {
  }

  method CreateTspPathEdges(path: Option<seq<string>>, edgeMap: map<string, EdgeData>, str: real -> string)
    returns (edges: seq<ResultEdge>)
    ensures edges == PathEdges(path, edgeMap, str)
  {
    edges := [];
    if path.None? || |path.value| <= 1 {
      return;
    }
    var p := path.value;
    for i := 0 to |p| - 1
      invariant edges == Segments(p, edgeMap, str, i)
    {
      var from := p[i];
      var to := p[i + 1];
      var edgeData := if EdgeId(from, to) in edgeMap then Some(edgeMap[EdgeId(from, to)])
                      else if EdgeId(to, from) in edgeMap then Some(edgeMap[EdgeId(to, from)])
                      else None;
      if edgeData.Some? {
        edges := edges + [MakeEdge(TspId(i), from, to, edgeData.value.weight, str)];
      }
    }
  }

  // ---------------------------------------------------------------------
  // convertAdjacencyListToGraph

  function AdjNodes(adj: AdjList): (r: seq<Node>)
    ensures |r| == |adj|
    ensures forall i | 0 <= i < |adj| :: r[i].id == r[i].caption == adj[i].key
  {
    seq(|adj|, i requires 0 <= i < |adj| => Node(adj[i].key, adj[i].key))
  }

  /** Exactly the keys become nodes; a target that is no key gets none. */
  lemma NodesAreKeys(adj: AdjList, x: string)
    ensures (exists n | n in AdjNodes(adj) :: n.id == x) <==> (exists i | 0 <= i < |adj| :: adj[i].key == x)
  {
    var r := AdjNodes(adj);
    if exists i | 0 <= i < |adj| :: adj[i].key == x {
      var i :| 0 <= i < |adj| && adj[i].key == x;
      assert r[i] in r;
    }
  }

  /** The edges of one entry, in its order. */
  function EntryEdges(en: AdjEntry, str: real -> string): (r: seq<ResultEdge>)
    ensures |r| == |en.targets|
  {
    seq(|en.targets|, j requires 0 <= j < |en.targets| =>
          MakeEdge(EdgeId(en.key, en.targets[j].to), en.key, en.targets[j].to, en.targets[j].weight, str))
  }

  function AdjEdges(adj: AdjList, str: real -> string): seq<ResultEdge>
    decreases |adj|
  {
    if adj == [] then [] else AdjEdges(adj[..|adj| - 1], str) + EntryEdges(adj[|adj| - 1], str)
  }

  ghost function TargetCount(adj: AdjList): nat
    decreases |adj|
  {
    if adj == [] then 0 else TargetCount(adj[..|adj| - 1]) + |adj[|adj| - 1].targets|
  }

  /** `e` is the edge of some entry's target. */
  ghost predicate EntryEdge(adj: AdjList, str: real -> string, e: ResultEdge) {
    exists i, j | 0 <= i < |adj| && 0 <= j < |adj[i].targets| :: e == EntryEdges(adj[i], str)[j]
  }

  /** One edge per entry target, labelled with its weight, id `from-to`. */
  lemma {:induction false} AdjEdgesAreTargets(adj: AdjList, str: real -> string)
    ensures |AdjEdges(adj, str)| == TargetCount(adj)
    ensures forall e :: e in AdjEdges(adj, str) <==> EntryEdge(adj, str, e)
    decreases |adj|
  {
    if adj != [] {
      var init := adj[..|adj| - 1];
      AdjEdgesAreTargets(init, str);
      forall e ensures e in AdjEdges(adj, str) <==> EntryEdge(adj, str, e) {
        if EntryEdge(adj, str, e) {
          var i, j :| 0 <= i < |adj| && 0 <= j < |adj[i].targets| && e == EntryEdges(adj[i], str)[j];
          if i < |init| {
            assert init[i] == adj[i];
            assert EntryEdge(init, str, e);
          } else {
            assert e in EntryEdges(adj[|adj| - 1], str);
          }
        }
        if e in AdjEdges(init, str) {
          var i, j :| 0 <= i < |init| && 0 <= j < |init[i].targets| && e == EntryEdges(init[i], str)[j];
          assert adj[i] == init[i];
        }
        if e in EntryEdges(adj[|adj| - 1], str) {
          var j :| 0 <= j < |EntryEdges(adj[|adj| - 1], str)| && EntryEdges(adj[|adj| - 1], str)[j] == e;
        }
      }
    }
  }

  /** `edgeMap[edgeId] = {from, to, weight}` for each edge in turn. */
  function MapOfList(es: seq<ResultEdge>): map<string, EdgeData>
    decreases |es|
  {
    if es == [] then map[] else MapOfList(es[..|es| - 1])[es[|es| - 1].id := Data(es[|es| - 1])]
  }

  /** The table holds every edge's id, and under each id the data of the
      last edge with that id. */
  lemma {:induction false} LastWriteWins(es: seq<ResultEdge>, i: nat)
    requires i < |es|
    requires forall j | i < j < |es| :: es[j].id != es[i].id
    ensures es[i].id in MapOfList(es) && MapOfList(es)[es[i].id] == Data(es[i])
    decreases |es|
  {
    if i < |es| - 1 {
      var init := es[..|es| - 1];
      assert init[i] == es[i];
      LastWriteWins(init, i);
    }
  }

  lemma {:induction false} MapOfListKeys(es: seq<ResultEdge>)
    ensures MapOfList(es).Keys == set e | e in es :: e.id
    decreases |es|
  {
    if es != [] {
      var init := es[..|es| - 1];
      MapOfListKeys(init);
      assert forall e | e in es :: e in init || e == es[|es| - 1];
    }
  }

  /** With distinct ids no entry is overwritten: the table is the edge list
      itself. */
  lemma DistinctIdsAllKept(es: seq<ResultEdge>)
    requires forall i, j | 0 <= i < j < |es| :: es[i].id != es[j].id
    ensures forall i | 0 <= i < |es| :: es[i].id in MapOfList(es) && MapOfList(es)[es[i].id] == Data(es[i])
  {
    forall i | 0 <= i < |es| ensures es[i].id in MapOfList(es) && MapOfList(es)[es[i].id] == Data(es[i]) {
      LastWriteWins(es, i);
    }
  }

  /** Two pairs whose ids collide: the table keeps only the later one. */
  lemma CollidingIdsOverwrite(str: real -> string)
    ensures var adj := [AdjEntry("a-b", [Target("c", 1.0)]), AdjEntry("a", [Target("b-c", 2.0)])];
      MapOfList(AdjEdges(adj, str)) == map["a-b-c" := EdgeData("a", "b-c", 2.0)]
  {
    var adj := [AdjEntry("a-b", [Target("c", 1.0)]), AdjEntry("a", [Target("b-c", 2.0)])];
    assert adj[..1] == [adj[0]];
    assert [adj[0]][..0] == [];
    var e1 := MakeEdge("a-b-c", "a-b", "c", 1.0, str);
    var e2 := MakeEdge("a-b-c", "a", "b-c", 2.0, str);
    assert EdgeId("a-b", "c") == "a-b-c" == EdgeId("a", "b-c");
    assert EntryEdges(adj[0], str)[0] == e1;
    assert EntryEdges(adj[0], str) == [e1];
    assert EntryEdges(adj[1], str)[0] == e2;
    assert EntryEdges(adj[1], str) == [e2];
    assert AdjEdges([adj[0]], str) == [e1];
    assert AdjEdges(adj, str) == [e1, e2];
    assert [e1, e2][..1] == [e1];
    assert [e1][..0] == [];
    assert MapOfList([e1]) == map["a-b-c" := Data(e1)];
    assert MapOfList([e1, e2]) == map["a-b-c" := Data(e1)]["a-b-c" := Data(e2)];
  }

  lemma EntryEdgesPrefix(en: AdjEntry, str: real -> string, j: nat)
    requires j < |en.targets|
    ensures EntryEdges(en, str)[..j + 1] == EntryEdges(en, str)[..j] + [EntryEdges(en, str)[j]]
  {
  }

  lemma MapOfListSnoc(es: seq<ResultEdge>, e: ResultEdge)
    ensures MapOfList(es + [e]) == MapOfList(es)[e.id := Data(e)]
  {
    assert (es + [e])[..|es|] == es;
  }

  method ConvertAdjacencyList(adj: AdjList, str: real -> string)
    returns (nodes: seq<Node>, edges: seq<ResultEdge>, edgeMap: map<string, EdgeData>)
    ensures nodes == AdjNodes(adj)
    ensures edges == AdjEdges(adj, str)
    ensures edgeMap == MapOfList(edges)
  {
    nodes := [];
    for i := 0 to |adj|
      invariant |nodes| == i
      invariant forall k | 0 <= k < i :: nodes[k] == Node(adj[k].key, adj[k].key)
    {
      nodes := nodes + [Node(adj[i].key, adj[i].key)];
    }
    edges := [];
    edgeMap := map[];
    for i := 0 to |adj|
      invariant edges == AdjEdges(adj[..i], str)
      invariant edgeMap == MapOfList(edges)
    {
      var from := adj[i].key;
      var connections := adj[i].targets;
      ghost var before := edges;
      for j := 0 to |connections|
        invariant edges == before + EntryEdges(adj[i], str)[..j]
        invariant edgeMap == MapOfList(edges)
      {
        var to := connections[j].to;
        var edgeId := EdgeId(from, to);
        var e := MakeEdge(edgeId, from, to, connections[j].weight, str);
        edgeMap := edgeMap[edgeId := EdgeData(from, to, connections[j].weight)];
        MapOfListSnoc(edges, e);
        EntryEdgesPrefix(adj[i], str, j);
        edges := edges + [e];
      }
      assert EntryEdges(adj[i], str)[..|connections|] == EntryEdges(adj[i], str);
      assert adj[..i + 1][..i] == adj[..i];
    }
    assert adj[..|adj|] == adj;
  }

  // ---------------------------------------------------------------------
  // calculatePathDistance

  /** `adjacencyList[key]`: the entry for `key`, if any. */
  function FindEntry(adj: AdjList, key: string): (r: Option<AdjEntry>)
    ensures r.Some? ==> r.value in adj && r.value.key == key
    ensures r.None? <==> forall i | 0 <= i < |adj| :: adj[i].key != key
    decreases |adj|
  {
    if adj == [] then None
    else if adj[0].key == key then Some(adj[0])
    else FindEntry(adj[1..], key)
  }

  /** `connections[to].weight`, if `to` is a target. */
  function FindTarget(ts: seq<Target>, to: string): (r: Option<real>)
    ensures r.Some? ==> Target(to, r.value) in ts
    ensures r.None? <==> forall j | 0 <= j < |ts| :: ts[j].to != to
    decreases |ts|
  {
    if ts == [] then None
    else if ts[0].to == to then Some(ts[0].weight)
    else FindTarget(ts[1..], to)
  }

  function AdjWeight(adj: AdjList, from: string, to: string): Option<real> {
    var en := FindEntry(adj, from);
    if en.Some? then FindTarget(en.value.targets, to) else None
  }

  /** One segment's share: the forward weight, else the reverse one, else 0. */
  function SegmentWeight(adj: AdjList, from: string, to: string): real {
    var fwd := AdjWeight(adj, from, to);
    if fwd.Some? then fwd.value
    else
      var rev := AdjWeight(adj, to, from);
      if rev.Some? then rev.value else 0.0
  }

  /** The weights of the first `k` segments. */
  function DistancePrefix(path: seq<string>, adj: AdjList, k: nat): real
    requires k < |path|
    decreases k
  {
    if k == 0 then 0.0 else DistancePrefix(path, adj, k - 1) + SegmentWeight(adj, path[k - 1], path[k])
  }

  function PathDistance(path: seq<string>, adj: AdjList): (d: real)
    ensures |path| <= 1 ==> d == 0.0
  {
    if |path| <= 1 then 0.0 else DistancePrefix(path, adj, |path| - 1)
  }

  ghost predicate WeightsNonNegative(adj: AdjList) {
    forall i, j | 0 <= i < |adj| && 0 <= j < |adj[i].targets| :: adj[i].targets[j].weight >= 0.0
  }

  lemma FindTargetInTargets(ts: seq<Target>, to: string)
    requires FindTarget(ts, to).Some?
    ensures exists j | 0 <= j < |ts| :: ts[j].weight == FindTarget(ts, to).value
  {
    var j :| 0 <= j < |ts| && ts[j] == Target(to, FindTarget(ts, to).value);
  }

  lemma SegmentWeightNonNegative(adj: AdjList, from: string, to: string)
    requires WeightsNonNegative(adj)
    ensures SegmentWeight(adj, from, to) >= 0.0
  {
    var fwd := FindEntry(adj, from);
    var rev := FindEntry(adj, to);
    if fwd.Some? && FindTarget(fwd.value.targets, to).Some? {
      var i :| 0 <= i < |adj| && adj[i] == fwd.value;
      FindTargetInTargets(fwd.value.targets, to);
    } else if rev.Some? && FindTarget(rev.value.targets, from).Some? {
      var i :| 0 <= i < |adj| && adj[i] == rev.value;
      FindTargetInTargets(rev.value.targets, from);
    }
  }

  /** With no negative weight in the list, no tour is shorter than 0. */
  lemma {:induction false} DistanceNonNegative(path: seq<string>, adj: AdjList, k: nat)
    requires k < |path| && WeightsNonNegative(adj)
    ensures DistancePrefix(path, adj, k) >= 0.0
    decreases k
  {
    if k > 0 {
      DistanceNonNegative(path, adj, k - 1);
      SegmentWeightNonNegative(adj, path[k - 1], path[k]);
    }
  }

  lemma PathDistanceNonNegative(path: seq<string>, adj: AdjList)
    requires WeightsNonNegative(adj)
    ensures PathDistance(path, adj) >= 0.0
  {
    if |path| > 1 {
      DistanceNonNegative(path, adj, |path| - 1);
    }
  }

  /** A segment listed only backwards counts with the backward weight. */
  lemma ReverseFallback(a: string, b: string, w: real)
    requires a != b
    ensures SegmentWeight([AdjEntry(b, [Target(a, w)])], a, b) == w
  {
  }

  method CalculatePathDistance(path: seq<string>, adj: AdjList) returns (totalDistance: real)
    ensures totalDistance == PathDistance(path, adj)
  {
    totalDistance := 0.0;
    if |path| <= 1 {
      return;
    }
    for i := 0 to |path| - 1
      invariant totalDistance == DistancePrefix(path, adj, i)
    {
      var from := path[i];
      var to := path[i + 1];
      var fwd := AdjWeight(adj, from, to);
      if fwd.Some? {
        totalDistance := totalDistance + fwd.value;
      } else {
        var rev := AdjWeight(adj, to, from);
        if rev.Some? {
          totalDistance := totalDistance + rev.value;
        }
      }
    }
  }
}
