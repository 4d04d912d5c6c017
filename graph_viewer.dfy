/** The saved-graph viewer: the stored edges drawn as they are, the selected
    TSP run's tour drawn over them in place, and the run list. */
module GraphViewing {
  import opened Js
  import opened Graphs
  import opened Transport

  /** An edge as the viewer hands it to the network; `highlighted` stands for
      the red, wide style of a tour edge. */
  datatype ViewEdge = ViewEdge(id: string, from: string, to: string, caption: string, highlighted: bool)

  /** A TSP run; `path` may be missing. */
  datatype Run = Run(id: int, path: Option<seq<string>>)

  /** `weight?.toString() ?? ""`. */
  function WeightLabel(w: Option<real>, str: real -> string): string {
    if w.Some? then str(w.value) else ""
  }

  /** `baseEdges`: `{id: from-to, from, to, label}` for each stored edge. */
  function BaseEdges(stored: seq<StoredEdge>, str: real -> string): (r: seq<ViewEdge>)
    ensures |r| == |stored|
    ensures forall i | 0 <= i < |stored| ::
              r[i] == ViewEdge(EdgeId(stored[i].from, stored[i].to), stored[i].from, stored[i].to,
                               WeightLabel(stored[i].weight, str), false)
  {
    seq(|stored|, i requires 0 <= i < |stored| =>
          ViewEdge(EdgeId(stored[i].from, stored[i].to), stored[i].from, stored[i].to,
                   WeightLabel(stored[i].weight, str), false))
  }

  /** `graph.graph.edges.find(e => e.from === from && e.to === to)`. */
  function FindStored(stored: seq<StoredEdge>, from: string, to: string): (r: Option<StoredEdge>)
    ensures r.Some? ==> r.value in stored && r.value.from == from && r.value.to == to
    ensures r.None? <==> forall i | 0 <= i < |stored| :: !(stored[i].from == from && stored[i].to == to)
    decreases |stored|
  {
    if stored == [] then None
    else if stored[0].from == from && stored[0].to == to then Some(stored[0])
    else FindStored(stored[1..], from, to)
  }

  /** The highlight for one tour segment: its label comes only from a stored
      edge in the same direction. */
  function Highlight(stored: seq<StoredEdge>, from: string, to: string, str: real -> string): ViewEdge {
    var m := FindStored(stored, from, to);
    ViewEdge(EdgeId(from, to), from, to, if m.Some? then WeightLabel(m.value.weight, str) else "", true)
  }

  /** `highlightedEdges`: one per consecutive pair of the tour. */
  function Highlights(path: seq<string>, stored: seq<StoredEdge>, str: real -> string): (hs: seq<ViewEdge>)
    ensures |hs| == if |path| <= 1 then 0 else |path| - 1
    ensures forall i | 0 <= i < |hs| :: hs[i] == Highlight(stored, path[i], path[i + 1], str)
  {
    if |path| <= 1 then []
    else seq(|path| - 1, i requires 0 <= i < |path| - 1 => Highlight(stored, path[i], path[i + 1], str))
  }

  method BuildHighlights(path: seq<string>, stored: seq<StoredEdge>, str: real -> string)
    returns (highlightedEdges: seq<ViewEdge>)
    ensures highlightedEdges == Highlights(path, stored, str)
  {
    highlightedEdges := [];
    var i := 0;
    while i < |path| - 1
      invariant 0 <= i && (|path| <= 1 ==> i == 0) && (|path| > 1 ==> i <= |path| - 1)
      invariant |highlightedEdges| == i
      invariant forall k | 0 <= k < i :: highlightedEdges[k] == Highlight(stored, path[k], path[k + 1], str)
    {
      var from := path[i];
      var to := path[i + 1];
      var matchingEdge := FindStored(stored, from, to);
      var caption := if matchingEdge.Some? then WeightLabel(matchingEdge.value.weight, str) else "";
      highlightedEdges := highlightedEdges + [ViewEdge(EdgeId(from, to), from, to, caption, true)];
      i := i + 1;
    }
  }

  function PairOf(e: ViewEdge): Pair {
    Pair(e.from, e.to)
  }

  /** `findIndex(e => e.from === h.from && e.to === h.to)`, `-1` when none. */
  function FindIndex(es: seq<ViewEdge>, p: Pair): (idx: int)
    ensures -1 <= idx < |es|
    ensures idx == -1 <==> forall k | 0 <= k < |es| :: PairOf(es[k]) != p
    ensures idx >= 0 ==> PairOf(es[idx]) == p && forall k | 0 <= k < idx :: PairOf(es[k]) != p
    decreases |es|
  {
    if es == [] then -1
    else if PairOf(es[0]) == p then 0
    else
      var r := FindIndex(es[1..], p);
      if r == -1 then -1 else r + 1
  }

  /** One step of the merge: replace the first edge with the same ends, or
      append. */
  function MergeOne(es: seq<ViewEdge>, h: ViewEdge): seq<ViewEdge> {
    var idx := FindIndex(es, PairOf(h));
    if idx != -1 then es[idx := h] else es + [h]
  }

  /** The merge loop over all highlights, in order. */
  function MergeAll(base: seq<ViewEdge>, hs: seq<ViewEdge>): seq<ViewEdge>
    decreases |hs|
  {
    if hs == [] then base else MergeOne(MergeAll(base, hs[..|hs| - 1]), hs[|hs| - 1])
  }

  method MergeHighlights(baseEdges: seq<ViewEdge>, highlightedEdges: seq<ViewEdge>) returns (merged: seq<ViewEdge>)
    ensures merged == MergeAll(baseEdges, highlightedEdges)
  {
    merged := baseEdges;
    for n := 0 to |highlightedEdges|
      invariant merged == MergeAll(baseEdges, highlightedEdges[..n])
    {
      var highlight := highlightedEdges[n];
      assert highlightedEdges[..n + 1][..n] == highlightedEdges[..n];
      var idx := FindIndex(merged, PairOf(highlight));
      if idx != -1 {
        merged := merged[idx := highlight];
      } else {
        merged := merged + [highlight];
      }
    }
    assert highlightedEdges[..|highlightedEdges|] == highlightedEdges;
  }

  function PairsOf(es: seq<ViewEdge>): set<Pair> {
    set e | e in es :: PairOf(e)
  }

  /** Replacing an edge by one with the same ends keeps the set of ends. */
  lemma ReplaceKeepsPairs(es: seq<ViewEdge>, idx: nat, h: ViewEdge)
    requires idx < |es| && PairOf(es[idx]) == PairOf(h)
    ensures PairsOf(es[idx := h]) == PairsOf(es)
  {
    var r := es[idx := h];
    forall p | p in PairsOf(es) ensures p in PairsOf(r) {
      var e :| e in es && PairOf(e) == p;
      var k :| 0 <= k < |es| && es[k] == e;
      if k == idx {
        assert PairOf(r[idx]) == p;
      } else {
        assert r[k] == e;
      }
    }
    forall p | p in PairsOf(r) ensures p in PairsOf(es) {
      var e :| e in r && PairOf(e) == p;
      var k :| 0 <= k < |r| && r[k] == e;
      if k != idx {
        assert es[k] == e;
      }
    }
  }

  /** A highlight replaces in place when its ends are already drawn, else it
      is appended; no other edge moves or changes. */
  lemma MergeOneEffect(es: seq<ViewEdge>, h: ViewEdge)
    ensures PairOf(h) in PairsOf(es) ==>
              && |MergeOne(es, h)| == |es|
              && PairsOf(MergeOne(es, h)) == PairsOf(es)
    ensures PairOf(h) !in PairsOf(es) ==>
              && MergeOne(es, h) == es + [h]
              && PairsOf(MergeOne(es, h)) == PairsOf(es) + {PairOf(h)}
    ensures forall k | 0 <= k < |es| && PairOf(es[k]) != PairOf(h) :: MergeOne(es, h)[k] == es[k]
    ensures h in MergeOne(es, h)
  {
    var idx := FindIndex(es, PairOf(h));
    if idx != -1 {
      ReplaceKeepsPairs(es, idx, h);
      assert MergeOne(es, h)[idx] == h;
    } else {
      assert PairOf(h) !in PairsOf(es) by {
        forall e | e in es ensures PairOf(e) != PairOf(h) {
          var k :| 0 <= k < |es| && es[k] == e;
        }
      }
      assert forall e | e in es + [h] :: e in es || e == h;
      assert (es + [h])[|es|] == h;
    }
  }

  /** The ends of a list of highlights: those before the last, and the
      last's. */
  lemma PairsOfSnoc(hs: seq<ViewEdge>)
    requires hs != []
    ensures PairsOf(hs) == PairsOf(hs[..|hs| - 1]) + {PairOf(hs[|hs| - 1])}
  {
    assert forall e | e in hs :: e in hs[..|hs| - 1] || e == hs[|hs| - 1];
  }

  /** The ends drawn after the merge are the base ends and the tour's. */
  lemma {:induction false} MergeAllPairs(base: seq<ViewEdge>, hs: seq<ViewEdge>)
    ensures PairsOf(MergeAll(base, hs)) == PairsOf(base) + PairsOf(hs)
    decreases |hs|
  {
    if hs != [] {
      var init := hs[..|hs| - 1];
      MergeAllPairs(base, init);
      MergeOneEffect(MergeAll(base, init), hs[|hs| - 1]);
      PairsOfSnoc(hs);
    }
  }

  /** Base edges whose ends no highlight shares keep their place and
      content. */
  lemma {:induction false} MergeAllKeeps(base: seq<ViewEdge>, hs: seq<ViewEdge>)
    ensures |base| <= |MergeAll(base, hs)|
    ensures forall k | 0 <= k < |base| && PairOf(base[k]) !in PairsOf(hs) :: MergeAll(base, hs)[k] == base[k]
    decreases |hs|
  {
    if hs != [] {
      var init := hs[..|hs| - 1];
      var h := hs[|hs| - 1];
      MergeAllKeeps(base, init);
      var cur := MergeAll(base, init);
      MergeOneEffect(cur, h);
      PairsOfSnoc(hs);
      forall k | 0 <= k < |base| && PairOf(base[k]) !in PairsOf(hs)
        ensures MergeAll(base, hs)[k] == base[k]
      {
        assert PairOf(base[k]) !in PairsOf(init);
      }
    }
  }

  /** The list grows by exactly the number of tour ends the base did not
      have: a repeated segment or a stored edge in the same direction adds
      nothing. */
  lemma {:induction false} MergeAllLength(base: seq<ViewEdge>, hs: seq<ViewEdge>)
    ensures |MergeAll(base, hs)| == |base| + |PairsOf(hs) - PairsOf(base)|
    decreases |hs|
  {
    if hs != [] {
      var init := hs[..|hs| - 1];
      var h := hs[|hs| - 1];
      MergeAllLength(base, init);
      MergeAllPairs(base, init);
      var cur := MergeAll(base, init);
      MergeOneEffect(cur, h);
      PairsOfSnoc(hs);
      NewPairCount(PairsOf(init), PairsOf(base), PairOf(h));
    }
  }

  /** Adding one pair to the tour adds one new pair exactly when neither the
      tour so far nor the base has it. */
  lemma NewPairCount<T>(tour: set<T>, base: set<T>, p: T)
    ensures p in base + tour ==> (tour + {p}) - base == tour - base
    ensures p !in base + tour ==> |(tour + {p}) - base| == |tour - base| + 1
  {
    if p !in base + tour {
      assert (tour + {p}) - base == (tour - base) + {p};
    }
  }

  /** The edges the viewer draws: the base edges, with the selected run's
      tour merged in when the run has a path. */
  function DisplayedEdges(stored: seq<StoredEdge>, selected: Option<Run>, str: real -> string): seq<ViewEdge> {
    var base := BaseEdges(stored, str);
    if selected.Some? && selected.value.path.Some? then
      MergeAll(base, Highlights(selected.value.path.value, stored, str))
    else base
  }

  /** With no run, or a run without a path, the stored edges are drawn as
      they are. */
  lemma NoRunShowsBase(stored: seq<StoredEdge>, selected: Option<Run>, str: real -> string)
    requires selected.None? || selected.value.path.None?
    ensures DisplayedEdges(stored, selected, str) == BaseEdges(stored, str)
  {
  }

  /** The effect on `[selectedRun, graph]`. */
  method ShowSelectedRun(stored: seq<StoredEdge>, selectedRun: Option<Run>, str: real -> string)
    returns (edges: seq<ViewEdge>)
    ensures edges == DisplayedEdges(stored, selectedRun, str)
  {
    edges := BaseEdges(stored, str);
    if selectedRun.Some? && selectedRun.value.path.Some? {
      var highlightedEdges := BuildHighlights(selectedRun.value.path.value, stored, str);
      edges := MergeHighlights(edges, highlightedEdges);
    }
  }

  /** `handleTspRunClick`: clicking the selected run deselects it; any other
      click selects the clicked run. */
  function ToggleRun(selected: Option<Run>, clicked: Run): (r: Option<Run>)
    ensures r == None <==> selected.Some? && selected.value.id == clicked.id
    ensures r != None ==> r == Some(clicked)
  {
    if selected.Some? && selected.value.id == clicked.id then None else Some(clicked)
  }

  /** The same click twice: back to no selection from any other, back to the
      clicked run from the run itself. */
  lemma ToggleTwice(selected: Option<Run>, clicked: Run)
    ensures ToggleRun(ToggleRun(selected, clicked), clicked) ==
              if selected.Some? && selected.value.id == clicked.id then Some(clicked) else None
  {
  }

  /** `setTspResults(prev => [newResult, ...prev])`. */
  function PrependResult(results: seq<Run>, newResult: Run): (r: seq<Run>)
    ensures |r| == |results| + 1 && r[0] == newResult && r[1..] == results
  {
    [newResult] + results
  }
}
