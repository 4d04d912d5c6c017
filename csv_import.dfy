/** CSV import in the editors without history: after the DataSets are
    cleared, one pass over the parsed rows collects the endpoints into an
    insertion-ordered set and the edges into an array, keeping the first row
    for each `${From}-${To}` key. */
module CsvImport {
  import opened Graphs

  /** A row as the CSV parser delivers it with a header line: column name to
      cell text. A column the row lacks is `undefined`. */
  type Row = map<string, string>

  /** `if (source && target)`: both cells present and non-empty. */
  predicate ValidRow(row: Row) {
    "From" in row && row["From"] != "" && "To" in row && row["To"] != ""
  }

  /** `weight !== undefined ? String(weight) : "1"`; the cell is already a
      string, so `String` leaves it as it is, and an empty cell stays empty. */
  function RowLabel(row: Row): string {
    if "Cost" in row then row["Cost"] else "1"
  }

  function RowKey(row: Row): string
    requires ValidRow(row)
  {
    EdgeId(row["From"], row["To"])
  }

  /** The edge object a row contributes: id is the key. */
  function RowEdge(row: Row): (e: Edge)
    requires ValidRow(row)
    ensures e.id == RowKey(row) && e.from == row["From"] && e.to == row["To"]
  {
    Edge(RowKey(row), row["From"], row["To"], RowLabel(row))
  }

  ghost predicate Distinct<T>(s: seq<T>) {
    forall i, j | 0 <= i < j < |s| :: s[i] != s[j]
  }

  /** `nodeSet.add(x)` on an insertion-ordered set. */
  function AddOnce(s: seq<string>, x: string): (r: seq<string>)
    ensures |s| <= |r| && r[..|s|] == s
    ensures Distinct(s) ==> Distinct(r)
  {
    if x in s then s else s + [x]
  }

  /** The ordered set holds exactly its old members and `x`. */
  lemma AddOnceMembers(s: seq<string>, x: string)
    ensures forall y :: y in AddOnce(s, x) <==> y in s || y == x
  {
  }

  /** The node set after the rows, in insertion order. */
  function NodeOrder(rows: seq<Row>): (order: seq<string>)
    ensures Distinct(order)
    decreases |rows|
  {
    if rows == [] then []
    else
      var prev := NodeOrder(rows[..|rows| - 1]);
      var row := rows[|rows| - 1];
      if ValidRow(row) then AddOnce(AddOnce(prev, row["From"]), row["To"]) else prev
  }

  /** The ids already in `edgeMap`. */
  function Ids(es: seq<Edge>): set<string> {
    set e | e in es :: e.id
  }

  /** `edgesToAdd` after the rows: a valid row whose key is new appends its
      edge. */
  function EdgeList(rows: seq<Row>): (es: seq<Edge>)
    decreases |rows|
  {
    if rows == [] then []
    else
      var prev := EdgeList(rows[..|rows| - 1]);
      var row := rows[|rows| - 1];
      if ValidRow(row) && RowKey(row) !in Ids(prev) then prev + [RowEdge(row)] else prev
  }

  lemma IdsSnoc(es: seq<Edge>, e: Edge)
    ensures Ids(es + [e]) == Ids(es) + {e.id}
  {
    assert forall x | x in es + [e] :: x in es || x == e;
  }

  /** The `forEach` over the rows. */
  method ImportRows(rows: seq<Row>) returns (nodeOrder: seq<string>, edgesToAdd: seq<Edge>)
    ensures nodeOrder == NodeOrder(rows)
    ensures edgesToAdd == EdgeList(rows)
  {
    nodeOrder := [];
    edgesToAdd := [];
    var edgeMap: set<string> := {};
    for i := 0 to |rows|
      invariant nodeOrder == NodeOrder(rows[..i])
      invariant edgesToAdd == EdgeList(rows[..i])
      invariant edgeMap == Ids(edgesToAdd)
    {
      var row := rows[i];
      ImportStep(rows, i);
      if "From" in row && row["From"] != "" && "To" in row && row["To"] != "" {
        var source := row["From"];
        var target := row["To"];
        nodeOrder := AddOnce(nodeOrder, source);
        nodeOrder := AddOnce(nodeOrder, target);
        var edgeKey := EdgeId(source, target);
        if edgeKey !in edgeMap {
          var caption := if "Cost" in row then row["Cost"] else "1";
          var edgeData := Edge(edgeKey, source, target, caption);
          assert edgeData == RowEdge(row);
          IdsSnoc(edgesToAdd, edgeData);
          edgesToAdd := edgesToAdd + [edgeData];
          edgeMap := edgeMap + {edgeKey};
        }
      }
    }
    assert rows[..|rows|] == rows;
  }

  /** What one row does to the node set and the edge array. */
  lemma ImportStep(rows: seq<Row>, i: nat)
    requires i < |rows|
    ensures var row := rows[i];
      && NodeOrder(rows[..i + 1]) ==
           (if ValidRow(row) then AddOnce(AddOnce(NodeOrder(rows[..i]), row["From"]), row["To"]) else NodeOrder(rows[..i]))
      && EdgeList(rows[..i + 1]) ==
           (if ValidRow(row) && RowKey(row) !in Ids(EdgeList(rows[..i])) then EdgeList(rows[..i]) + [RowEdge(row)]
            else EdgeList(rows[..i]))
  {
    assert rows[..i + 1][..i] == rows[..i];
  }

  /** `x` is the `From` or `To` of a valid row. */
  ghost predicate Mentioned(rows: seq<Row>, x: string) {
    exists i | 0 <= i < |rows| :: ValidRow(rows[i]) && (rows[i]["From"] == x || rows[i]["To"] == x)
  }

  /** The keys of the valid rows. */
  ghost function ValidKeys(rows: seq<Row>): set<string> {
    set i | 0 <= i < |rows| && ValidRow(rows[i]) :: RowKey(rows[i])
  }

  /** Row `i` is valid and no earlier valid row has its key. */
  ghost predicate FirstOfKey(rows: seq<Row>, i: int)
    requires 0 <= i < |rows|
  {
    ValidRow(rows[i]) && forall j | 0 <= j < i && ValidRow(rows[j]) :: RowKey(rows[j]) != RowKey(rows[i])
  }

  lemma MentionedSnoc(rows: seq<Row>, x: string)
    requires rows != []
    ensures var last := rows[|rows| - 1];
      Mentioned(rows, x) <==>
        Mentioned(rows[..|rows| - 1], x) || (ValidRow(last) && (last["From"] == x || last["To"] == x))
  {
    var init := rows[..|rows| - 1];
    if Mentioned(rows, x) {
      var i :| 0 <= i < |rows| && ValidRow(rows[i]) && (rows[i]["From"] == x || rows[i]["To"] == x);
      if i < |init| {
        assert init[i] == rows[i];
      }
    }
    if Mentioned(init, x) {
      var i :| 0 <= i < |init| && ValidRow(init[i]) && (init[i]["From"] == x || init[i]["To"] == x);
      assert rows[i] == init[i];
    }
  }

  /** The nodes are exactly the endpoints of the valid rows; skipped rows
      contribute none. */
  lemma {:induction false} NodeOrderIsEndpoints(rows: seq<Row>)
    ensures forall x :: x in NodeOrder(rows) <==> Mentioned(rows, x)
    decreases |rows|
  {
    if rows != [] {
      NodeOrderIsEndpoints(rows[..|rows| - 1]);
      forall x ensures x in NodeOrder(rows) <==> Mentioned(rows, x) {
        MentionedSnoc(rows, x);
      }
    }
  }

  /** The node set only grows at its end: the nodes seen in the first `k`
      rows keep their places. */
  lemma {:induction false} NodeOrderGrows(rows: seq<Row>, k: nat)
    requires k <= |rows|
    ensures |NodeOrder(rows[..k])| <= |NodeOrder(rows)|
    ensures NodeOrder(rows)[..|NodeOrder(rows[..k])|] == NodeOrder(rows[..k])
    decreases |rows| - k
  {
    if k == |rows| {
      assert rows[..k] == rows;
    } else {
      var init := rows[..|rows| - 1];
      NodeOrderGrows(init, k);
      assert init[..k] == rows[..k];
    }
  }

  /** First-appearance order: a node already seen in the first `k` rows comes
      before every node first seen after them. */
  lemma FirstAppearanceOrder(rows: seq<Row>, k: nat, x: string, y: string)
    requires k <= |rows|
    requires Mentioned(rows[..k], x) && !Mentioned(rows[..k], y) && Mentioned(rows, y)
    ensures exists p, q | 0 <= p < q < |NodeOrder(rows)| :: NodeOrder(rows)[p] == x && NodeOrder(rows)[q] == y
  {
    var order := NodeOrder(rows);
    var pre := NodeOrder(rows[..k]);
    NodeOrderIsEndpoints(rows[..k]);
    NodeOrderIsEndpoints(rows);
    NodeOrderGrows(rows, k);
    var p :| 0 <= p < |pre| && pre[p] == x;
    var q :| 0 <= q < |order| && order[q] == y;
    assert forall t | 0 <= t < |pre| :: order[t] == pre[t];
    assert order[p] == x;
  }

  lemma ValidKeysSnoc(rows: seq<Row>)
    requires rows != []
    ensures var last := rows[|rows| - 1];
      ValidKeys(rows) == ValidKeys(rows[..|rows| - 1]) + (if ValidRow(last) then {RowKey(last)} else {})
  {
    var init := rows[..|rows| - 1];
    var last := rows[|rows| - 1];
    forall k | k in ValidKeys(rows)
      ensures k in ValidKeys(init) + (if ValidRow(last) then {RowKey(last)} else {})
    {
      var i :| 0 <= i < |rows| && ValidRow(rows[i]) && RowKey(rows[i]) == k;
      if i < |init| {
        assert init[i] == rows[i];
      }
    }
    forall k | k in ValidKeys(init) ensures k in ValidKeys(rows) {
      var i :| 0 <= i < |init| && ValidRow(init[i]) && RowKey(init[i]) == k;
      assert rows[i] == init[i];
    }
    if ValidRow(last) {
      assert RowKey(rows[|rows| - 1]) in ValidKeys(rows);
    }
  }

  /** The imported edge ids are exactly the keys of the valid rows, each once. */
  lemma {:induction false} EdgeListKeys(rows: seq<Row>)
    ensures Ids(EdgeList(rows)) == ValidKeys(rows)
    ensures forall i, j | 0 <= i < j < |EdgeList(rows)| :: EdgeList(rows)[i].id != EdgeList(rows)[j].id
    decreases |rows|
  {
    if rows != [] {
      var init := rows[..|rows| - 1];
      EdgeListKeys(init);
      ValidKeysSnoc(rows);
      var prev := EdgeList(init);
      var last := rows[|rows| - 1];
      if ValidRow(last) && RowKey(last) !in Ids(prev) {
        var es := prev + [RowEdge(last)];
        assert Ids(es) == Ids(prev) + {RowKey(last)} by {
          assert forall e | e in es :: e in prev || e == RowEdge(last);
        }
        forall i, j | 0 <= i < j < |es| ensures es[i].id != es[j].id {
          if j == |prev| {
            assert es[i] in prev;
          } else {
            assert es[i] == prev[i] && es[j] == prev[j];
          }
        }
      }
    }
  }

  /** The earlier rows' edges are a prefix of the later ones. */
  lemma {:induction false} EdgeListGrows(rows: seq<Row>, k: nat)
    requires k <= |rows|
    ensures |EdgeList(rows[..k])| <= |EdgeList(rows)|
    ensures EdgeList(rows)[..|EdgeList(rows[..k])|] == EdgeList(rows[..k])
    decreases |rows| - k
  {
    if k == |rows| {
      assert rows[..k] == rows;
    } else {
      var init := rows[..|rows| - 1];
      EdgeListGrows(init, k);
      assert init[..k] == rows[..k];
    }
  }

  /** First occurrence wins: the first valid row with a key contributes its
      edge, and that is the only edge with that id. */
  lemma {:induction false} FirstRowWins(rows: seq<Row>, i: nat)
    requires i < |rows| && FirstOfKey(rows, i)
    ensures RowEdge(rows[i]) in EdgeList(rows)
    ensures forall e | e in EdgeList(rows) && e.id == RowKey(rows[i]) :: e == RowEdge(rows[i])
    decreases |rows|
  {
    var init := rows[..|rows| - 1];
    var last := rows[|rows| - 1];
    if i == |rows| - 1 {
      EdgeListKeys(init);
      assert RowKey(last) !in ValidKeys(init) by {
        forall j | 0 <= j < |init| && ValidRow(init[j]) ensures RowKey(init[j]) != RowKey(last) {
          assert rows[j] == init[j];
        }
      }
    } else {
      assert init[i] == rows[i];
      assert FirstOfKey(init, i) by {
        forall j | 0 <= j < i && ValidRow(init[j]) ensures RowKey(init[j]) != RowKey(init[i]) {
          assert init[j] == rows[j];
        }
      }
      FirstRowWins(init, i);
    }
    EdgeListKeys(rows);
    var es := EdgeList(rows);
    forall e | e in es && e.id == RowKey(rows[i]) ensures e == RowEdge(rows[i]) {
      var p :| 0 <= p < |es| && es[p] == e;
      var q :| 0 <= q < |es| && es[q] == RowEdge(rows[i]);
      assert es[p].id == es[q].id;
    }
  }

  /** Every imported edge is the edge of the first valid row with its key. */
  lemma {:induction false} EdgeListFromRows(rows: seq<Row>)
    ensures forall e | e in EdgeList(rows) ::
              exists i | 0 <= i < |rows| :: FirstOfKey(rows, i) && e == RowEdge(rows[i])
    decreases |rows|
  {
    if rows != [] {
      var init := rows[..|rows| - 1];
      EdgeListFromRows(init);
      var last := rows[|rows| - 1];
      forall e | e in EdgeList(rows) ensures exists i | 0 <= i < |rows| :: FirstOfKey(rows, i) && e == RowEdge(rows[i]) {
        if e in EdgeList(init) {
          var i :| 0 <= i < |init| && FirstOfKey(init, i) && e == RowEdge(init[i]);
          assert rows[i] == init[i];
          assert FirstOfKey(rows, i) by {
            forall j | 0 <= j < i && ValidRow(rows[j]) ensures RowKey(rows[j]) != RowKey(rows[i]) {
              assert rows[j] == init[j];
            }
          }
        } else {
          assert ValidRow(last) && e == RowEdge(last) && RowKey(last) !in Ids(EdgeList(init));
          EdgeListKeys(init);
          assert FirstOfKey(rows, |rows| - 1) by {
            forall j | 0 <= j < |rows| - 1 && ValidRow(rows[j]) ensures RowKey(rows[j]) != RowKey(last) {
              assert init[j] == rows[j];
              assert RowKey(init[j]) in ValidKeys(init);
            }
          }
        }
      }
    }
  }

  lemma DistinctIdsCard(es: seq<Edge>)
    requires forall i, j | 0 <= i < j < |es| :: es[i].id != es[j].id
    ensures |Ids(es)| == |es|
    decreases |es|
  {
    if es != [] {
      var init := es[..|es| - 1];
      DistinctIdsCard(init);
      assert Ids(es) == Ids(init) + {es[|es| - 1].id} by {
        assert forall e | e in es :: e in init || e == es[|es| - 1];
      }
      assert es[|es| - 1].id !in Ids(init) by {
        forall e | e in init ensures e.id != es[|es| - 1].id {
          var p :| 0 <= p < |init| && init[p] == e;
          assert es[p] == e;
        }
      }
    }
  }

  /** The edge count is the number of distinct keys among the valid rows. */
  lemma EdgeCountIsKeyCount(rows: seq<Row>)
    ensures |EdgeList(rows)| == |ValidKeys(rows)|
  {
    EdgeListKeys(rows);
    DistinctIdsCard(EdgeList(rows));
  }

  /** Distinct ids mean distinct pairs. */
  lemma EdgeListDistinctPairs(rows: seq<Row>)
    ensures DistinctPairs(EdgeList(rows))
  {
    EdgeListKeys(rows);
    var es := EdgeList(rows);
    forall i, j | 0 <= i < j < |es| ensures KeyOf(es[i]) != KeyOf(es[j]) {
      EdgeListFromRows(rows);
      assert es[i] in es && es[j] in es;
      var p :| 0 <= p < |rows| && FirstOfKey(rows, p) && es[i] == RowEdge(rows[p]);
      var q :| 0 <= q < |rows| && FirstOfKey(rows, q) && es[j] == RowEdge(rows[q]);
      assert EdgeId(es[i].from, es[i].to) != EdgeId(es[j].from, es[j].to);
    }
  }

  /** Every imported edge joins two imported nodes. */
  lemma EndpointsAreNodes(rows: seq<Row>)
    ensures forall e | e in EdgeList(rows) :: e.from in NodeOrder(rows) && e.to in NodeOrder(rows)
  {
    EdgeListFromRows(rows);
    NodeOrderIsEndpoints(rows);
    forall e | e in EdgeList(rows) ensures Mentioned(rows, e.from) && Mentioned(rows, e.to) {
      var i :| 0 <= i < |rows| && FirstOfKey(rows, i) && e == RowEdge(rows[i]);
    }
  }

  /** The graph the import leaves: nothing of what was there before, the
      nodes `{id: n, label: n}` and the kept edges. */
  function ImportedGraph(rows: seq<Row>): (g: Graph)
    ensures WellFormed(g)
    ensures g.nodes.Keys == set x | x in NodeOrder(rows)
    ensures forall x :: x in g.nodes <==> Mentioned(rows, x)
    ensures forall e | e in EdgeList(rows) :: KeyOf(e) in g.edges && g.edges[KeyOf(e)] == e
    ensures forall k | k in g.edges :: g.edges[k] in EdgeList(rows)
  {
    EdgeListDistinctPairs(rows);
    EndpointsAreNodes(rows);
    NodeOrderIsEndpoints(rows);
    Graph(NodesNamed(NodeOrder(rows)), EdgesOf(EdgeList(rows)))
  }

  /** Two different pairs with the same key: the second row is dropped,
      though both rows' endpoints become nodes. */
  lemma KeyCollisionDropsEdge()
    ensures var rows := [map["From" := "a-b", "To" := "c"], map["From" := "a", "To" := "b-c"]];
      && EdgeList(rows) == [Edge("a-b-c", "a-b", "c", "1")]
      && NodeOrder(rows) == ["a-b", "c", "a", "b-c"]
  {
    var rows := [map["From" := "a-b", "To" := "c"], map["From" := "a", "To" := "b-c"]];
    assert rows[..1] == [rows[0]];
    assert [rows[0]][..0] == [];
    assert ValidRow(rows[0]) && ValidRow(rows[1]);
    assert RowKey(rows[0]) == "a-b-c" == RowKey(rows[1]);
    assert EdgeList([rows[0]]) == [RowEdge(rows[0])];
    assert RowEdge(rows[0]) == Edge("a-b-c", "a-b", "c", "1");
    assert "a-b-c" in Ids(EdgeList(rows[..1]));
  }

  /** The label defaults to "1" only for a missing Cost column; an empty
      Cost cell gives an empty label. */
  lemma LabelDefaultsOnlyWhenMissing()
    ensures RowLabel(map["From" := "a", "To" := "b"]) == "1"
    ensures RowLabel(map["From" := "a", "To" := "b", "Cost" := ""]) == ""
    ensures RowLabel(map["From" := "a", "To" := "b", "Cost" := "7"]) == "7"
  {
  }
}
