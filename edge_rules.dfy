/** The acceptance rules shared by every editor: a new node name must be
    non-blank and unused; a proposed edge must not repeat an ordered pair and
    its prompted weight must be a non-negative number. */
module EdgeRules {
  import opened Js
  import opened Graphs

  datatype NameVerdict = BlankName | DuplicateName | FreshName

  /** `addNode`'s two guards, in order: `name.trim() === ""`, then
      `networkNodes.get(name)`. */
  function JudgeNodeName(nodes: map<string, Node>, name: string): (v: NameVerdict)
    ensures v == BlankName <==> AllWhitespace(name)
    ensures v == DuplicateName <==> !AllWhitespace(name) && name in nodes
    ensures v == FreshName <==> !AllWhitespace(name) && name !in nodes
  {
    TrimEmptyIffBlank(name);
    if Trim(name) == "" then BlankName
    else if name in nodes then DuplicateName
    else FreshName
  }

  /** `edges.get().filter(e => e.from === from && e.to === to).length > 0`. */
  predicate IsDuplicate(edges: map<Pair, Edge>, from: string, to: string) {
    exists k | k in edges :: edges[k].from == from && edges[k].to == to
  }

  /** `w !== null && !isNaN(Number(w)) && Number(w) >= 0`; `None` is a
      cancelled prompt. */
  predicate AcceptsWeight(number: Parser, weight: Option<string>) {
    weight.Some? && !number(weight.value).NaN? && AtLeastZero(number(weight.value))
  }

  datatype EdgeVerdict = DuplicateEdge | RejectedWeight | Accepted(caption: string)

  /** The `addEdge` manipulation callback: a repeated ordered pair is refused
      before the weight is asked for; an accepted edge is labelled with the
      raw text that was typed. */
  function JudgeEdge(edges: map<Pair, Edge>, from: string, to: string,
                     weight: Option<string>, number: Parser): (v: EdgeVerdict)
    ensures v == DuplicateEdge <==> IsDuplicate(edges, from, to)
    ensures v.Accepted? <==> !IsDuplicate(edges, from, to) && AcceptsWeight(number, weight)
    ensures v.Accepted? ==> weight == Some(v.caption)
  {
    if IsDuplicate(edges, from, to) then DuplicateEdge
    else if AcceptsWeight(number, weight) then Accepted(weight.value)
    else RejectedWeight
  }

  /** When every edge sits under its own pair, the duplicate test is
      membership of the ordered pair. */
  lemma DuplicateIsPairMembership(edges: map<Pair, Edge>, from: string, to: string)
    requires forall k | k in edges :: KeyOf(edges[k]) == k
    ensures IsDuplicate(edges, from, to) <==> Pair(from, to) in edges
  {
    if Pair(from, to) in edges {
      assert edges[Pair(from, to)].from == from && edges[Pair(from, to)].to == to;
    }
  }

  /** The test is directed: an edge a->b does not block b->a. */
  lemma ReversedPairIsNotDuplicate(e: Edge, number: Parser, weight: Option<string>)
    requires e.from != e.to
    requires AcceptsWeight(number, weight)
    ensures JudgeEdge(map[KeyOf(e) := e], e.to, e.from, weight, number) == Accepted(weight.value)
  {
  }

  /** A weight the prompt returns as "-1" is refused. */
  lemma NegativeWeightRejected(edges: map<Pair, Edge>, from: string, to: string, number: Parser)
    requires !IsDuplicate(edges, from, to)
    requires number("-1") == Finite(-1.0)
    ensures JudgeEdge(edges, from, to, Some("-1"), number) == RejectedWeight
  {
  }

  /** A self-loop is accepted like any other edge: nothing checks `from != to`. */
  lemma SelfLoopAccepted(n: string, number: Parser, weight: Option<string>)
    requires AcceptsWeight(number, weight)
    ensures JudgeEdge(map[], n, n, weight, number).Accepted?
  {
  }
}
