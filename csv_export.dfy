/** `downloadCSV` in the graph viewer: the `data:` URI text built from the
    fetched graph's edges, one unquoted `source,target,weight` line each. */
module CsvExport {
  import opened Js

  /** An edge of the fetched graph as the export reads it: the `source`,
      `target` and `weight` fields, each possibly absent, the weight already
      rendered as text. */
  datatype ExportEdge = ExportEdge(source: Option<string>, target: Option<string>, weight: Option<string>)

  /** The fetched graph; `edges` may be absent. */
  datatype GraphData = GraphData(edges: Option<seq<ExportEdge>>)

  const Prefix: string := "data:text/csv;charset=utf-8,"
  const HeaderLine: string := "From,To,Cost"

  /** A template-literal slot: an absent field renders as "undefined". A
      field the server sent as JSON null would render as "null"; the model
      does not tell null apart from absent. */
  function Field(f: Option<string>): string {
    if f.Some? then f.value else "undefined"
  }

  function Line(e: ExportEdge): string {
    Field(e.source) + "," + Field(e.target) + "," + Field(e.weight)
  }

  function Lines(es: seq<ExportEdge>): (r: seq<string>)
    ensures |r| == |es| && forall i | 0 <= i < |es| :: r[i] == Line(es[i])
  {
    seq(|es|, i requires 0 <= i < |es| => Line(es[i]))
  }

  /** `Array.prototype.join(c)`: separators between, none after. */
  function Join(parts: seq<string>, c: char): string
    decreases |parts|
  {
    if |parts| == 0 then ""
    else if |parts| == 1 then parts[0]
    else parts[0] + [c] + Join(parts[1..], c)
  }

  /** Splitting at every `c`; the reference the exported text is read back
      with. */
  function SplitOn(s: string, c: char): (r: seq<string>)
    ensures |r| >= 1
    decreases |s|
  {
    if |s| == 0 then [""]
    else if s[0] == c then [""] + SplitOn(s[1..], c)
    else
      var rest := SplitOn(s[1..], c);
      [[s[0]] + rest[0]] + rest[1..]
  }

  /** No file when the graph or its edge list is missing; otherwise the
      prefix, the header line and a newline, then the edge lines joined by
      newlines. */
  function DownloadCsv(data: Option<GraphData>): (r: Option<string>)
    ensures r.None? <==> data.None? || data.value.edges.None?
    ensures r.Some? ==> r.value == Prefix + Body(data.value.edges.value)
  {
    if data.None? || data.value.edges.None? then None
    else Some(Prefix + Body(data.value.edges.value))
  }

  function Body(es: seq<ExportEdge>): string {
    HeaderLine + "\n" + Join(Lines(es), '\n')
  }

  lemma {:induction false} SplitWithoutSeparator(a: string, c: char)
    requires c !in a
    ensures SplitOn(a, c) == [a]
    decreases |a|
  {
    if |a| > 0 {
      SplitWithoutSeparator(a[1..], c);
      assert [a[0]] + a[1..] == a;
    }
  }

  lemma {:induction false} SplitAtFirst(a: string, b: string, c: char)
    requires c !in a
    ensures SplitOn(a + [c] + b, c) == [a] + SplitOn(b, c)
    decreases |a|
  {
    var s := a + [c] + b;
    if |a| == 0 {
      assert s == [c] + b;
      assert s[1..] == b;
    } else {
      assert s[1..] == a[1..] + [c] + b;
      SplitAtFirst(a[1..], b, c);
      assert [a[0]] + a[1..] == a;
    }
  }

  /** Splitting undoes joining when no part holds the separator. */
  lemma {:induction false} SplitJoin(parts: seq<string>, c: char)
    requires |parts| >= 1
    requires forall i | 0 <= i < |parts| :: c !in parts[i]
    ensures SplitOn(Join(parts, c), c) == parts
    decreases |parts|
  {
    if |parts| == 1 {
      SplitWithoutSeparator(parts[0], c);
    } else {
      SplitJoin(parts[1..], c);
      SplitAtFirst(parts[0], Join(parts[1..], c), c);
      assert [parts[0]] + parts[1..] == parts;
    }
  }

  /** A line splits back into its three fields when none holds a comma. */
  lemma LineSplits(e: ExportEdge)
    requires ',' !in Field(e.source) && ',' !in Field(e.target) && ',' !in Field(e.weight)
    ensures SplitOn(Line(e), ',') == [Field(e.source), Field(e.target), Field(e.weight)]
  {
    var s, t, w := Field(e.source), Field(e.target), Field(e.weight);
    assert Line(e) == s + [','] + (t + [','] + w);
    SplitAtFirst(s, t + [','] + w, ',');
    SplitAtFirst(t, w, ',');
    SplitWithoutSeparator(w, ',');
  }

  /** Edges whose fields hold no newline: the text after the prefix reads
      back as the header line and then one line per edge in edge order; with
      no edges it is the header line and a newline. */
  lemma BodyReadsBack(es: seq<ExportEdge>)
    requires forall i | 0 <= i < |es| ::
               '\n' !in Field(es[i].source) && '\n' !in Field(es[i].target) && '\n' !in Field(es[i].weight)
    ensures es == [] ==> Body(es) == "From,To,Cost\n"
    ensures es != [] ==> SplitOn(Body(es), '\n') == [HeaderLine] + Lines(es)
  {
    assert Body(es) == HeaderLine + ['\n'] + Join(Lines(es), '\n');
    if es != [] {
      forall i | 0 <= i < |es| ensures '\n' !in Lines(es)[i] {
        assert Lines(es)[i] == Field(es[i].source) + "," + Field(es[i].target) + "," + Field(es[i].weight);
      }
      SplitJoin(Lines(es), '\n');
      SplitAtFirst(HeaderLine, Join(Lines(es), '\n'), '\n');
    }
  }

  /** Nothing is quoted: a comma inside a name becomes an extra column. */
  lemma CommaInNameAddsColumn()
    ensures SplitOn(Line(ExportEdge(Some("a,b"), Some("c"), Some("1"))), ',') == ["a", "b", "c", "1"]
  {
    assert Line(ExportEdge(Some("a,b"), Some("c"), Some("1"))) == "a" + [','] + ("b" + [','] + ("c" + [','] + "1"));
    SplitAtFirst("a", "b" + [','] + ("c" + [','] + "1"), ',');
    SplitAtFirst("b", "c" + [','] + "1", ',');
    SplitAtFirst("c", "1", ',');
    SplitWithoutSeparator("1", ',');
  }

  /** A missing weight is written as the text "undefined". */
  lemma MissingWeightWrittenUndefined(s: string, t: string)
    ensures Line(ExportEdge(Some(s), Some(t), None)) == s + "," + t + ",undefined"
  {
  }
}
