/**
 * Sorted writing does not survive being read back by pynock/pynock.py.
 * Sorting by name can put an edge to a node before that node's own row.
 * Reading the rows back then stores a placeholder for the destination
 * (`populate_edge`), and the node's own row comes too late to replace it,
 * because the first definition of a name wins (`populate_node`).
 */
module SortedRoundTrip {
  import opened Strs
  import opened Graph
  import opened PynockIngest
  import opened PynockEmit
  import Pynock

  /** B was read first, with the label `x`; A was read second and holds the edge A -r-> B. */
  function Example(): State
  {
    State(2,
      map[0 := Node(0, "B", BASED_LOCAL, false, ["x"], 1.0, map[], NoEdges),
          1 := Node(1, "A", BASED_LOCAL, false, ["a"], 1.0, map[], EdgeMap([1], map[1 := [Edge(1, 0, 1.0, map[])]]))],
      map["B" := 0, "A" := 1],
      [EMPTY_STRING, "r"])
  }

  /** What reading the sorted rows of `Example` back gives: A first, and a placeholder for B. */
  function Reread(): State
  {
    State(2,
      map[0 := Node(0, "A", BASED_LOCAL, false, ["a"], 1.0, map[], EdgeMap([1], map[1 := [Edge(1, 1, 1.0, map[])]])),
          1 := Placeholder(1, "B", 1.0, false)],
      map["A" := 0, "B" := 1],
      [EMPTY_STRING, "r"])
  }

  /** The three rows both partitions start with, B's node row carrying `labels`. */
  function ExampleRows(labels: string): seq<Row>
  {
    [Row("A", -1, None, None, 1.0, BASED_LOCAL, false, Some("a"), EMPTY_STRING),
     Row("A", 0, Some("r"), Some("B"), 1.0, -1, false, None, EMPTY_STRING),
     Row("B", -1, None, None, 1.0, BASED_LOCAL, false, Some(labels), EMPTY_STRING)]
  }

  lemma ExampleConsistent()
    ensures Consistent(Example())
  {
    var s := Example();
    assert HasName(s, 0) by { assert s.node_names["B"] == 0; }
    assert HasName(s, 1) by { assert s.node_names["A"] == 1; }
    assert NamesDense(s);
    assert RelsOk(s.edge_rels);
    assert NodeFits(s, 0, s.nodes[0]);
    assert NodeFits(s, 1, s.nodes[1]);
  }

  lemma RereadConsistent()
    ensures Consistent(Reread())
  {
    var t := Reread();
    assert HasName(t, 0) by { assert t.node_names["A"] == 0; }
    assert HasName(t, 1) by { assert t.node_names["B"] == 1; }
    assert NamesDense(t);
    assert RelsOk(t.edge_rels);
    assert NodeFits(t, 0, t.nodes[0]);
    assert NodeFits(t, 1, t.nodes[1]);
  }

  /** Sorted by name, A (id 1) is written before B (id 0). */
  lemma ExampleOrder()
    ensures NodeOrder(Example(), true) == [1, 0]
  {
    var s := Example();
    var less := KeyLess(NameOf(s));
    assert Ids(2) == [0, 1];
    assert less(1, 0) by { assert NameOf(s)(1) == "A" && NameOf(s)(0) == "B"; }
    assert SortBy([1], less) == [1];
    assert [0, 1][1..] == [1];
    assert Insert(0, [1], less) == [1, 0];
  }

  /** A partition written in the order of two ids is the block of one, then the block of the other. */
  lemma EmitTwo(json: JsonCodec, s: State, i: nat, j: nat, sort: bool)
    requires Consistent(s) && NodeOrder(s, sort) == [i, j]
    ensures i in s.nodes && j in s.nodes
    ensures Emit(json, s, sort) == Block(json, s, i, sort) + Block(json, s, j, sort)
  {
    OrderStored(s, sort);
    assert i in s.nodes && j in s.nodes by {
      assert NodeOrder(s, sort)[0] == i && NodeOrder(s, sort)[1] == j;
    }
    EmitBlocks(json, s, sort);
    BlocksTwo(json, s, i, j, sort);
  }

  lemma EmitBlocks(json: JsonCodec, s: State, sort: bool)
    requires Consistent(s)
    ensures forall k :: 0 <= k < |NodeOrder(s, sort)| ==> NodeOrder(s, sort)[k] in s.nodes
    ensures Emit(json, s, sort) == Blocks(json, s, NodeOrder(s, sort), sort)
  {
    OrderStored(s, sort);
  }

  lemma BlocksTwo(json: JsonCodec, s: State, i: nat, j: nat, sort: bool)
    requires Consistent(s) && i in s.nodes && j in s.nodes
    ensures Blocks(json, s, [i, j], sort) == Block(json, s, i, sort) + Block(json, s, j, sort)
  {
    var order := [i, j];
    assert order[..2] == order && order[..1] == [i] && order[1] == j;
    Pynock.BlocksSnoc(json, s, order, 1, sort);
    BlocksOne(json, s, i, sort);
  }

  lemma BlocksOne(json: JsonCodec, s: State, i: nat, sort: bool)
    requires Consistent(s) && i in s.nodes
    ensures Blocks(json, s, [i], sort) == Block(json, s, i, sort)
  {
    var b := Blocks(json, s, [i], sort);
    assert [i][..0] == [];
    assert b == Blocks(json, s, [], sort) + Block(json, s, i, sort);
  }

  /** The block of a node with one edge: its node row, then that edge's row numbered 0. */
  lemma BlockOneEdge(json: JsonCodec, s: State, id: nat, sort: bool, e: Edge)
    requires Consistent(s) && id in s.nodes && NodeEdges(s, s.nodes[id], sort) == [e]
    ensures e.rel < |s.edge_rels|
    ensures Block(json, s, id, sort) == [NodeRow(json, s.nodes[id]), EdgeRow(json, s, s.nodes[id], e, 0)]
  {
    assert NodeFits(s, id, s.nodes[id]);
    NodeEdgesMembers(s, s.nodes[id], sort);
    assert e in NodeEdges(s, s.nodes[id], sort);
  }

  /** The block of a node without edges: its node row alone. */
  lemma BlockNoEdge(json: JsonCodec, s: State, id: nat, sort: bool)
    requires Consistent(s) && id in s.nodes && s.nodes[id].edge_map == NoEdges
    ensures Block(json, s, id, sort) == [NodeRow(json, s.nodes[id])]
  {
  }

  /** A's edges, sorted: the one edge to B. */
  lemma ExampleEdges()
    ensures NodeEdges(Example(), Example().nodes[1], true) == [Edge(1, 0, 1.0, map[])]
  {
    var s := Example();
    var a := s.nodes[1];
    var e := Edge(1, 0, 1.0, map[]);
    assert GroupOrder(a, true) == [1];
    assert Ordered(s, [e], true) == [e];
    assert [1][..0] == [];
  }

  /** Sorted by name, A's block is written first, so the edge to B comes before B's own row. */
  lemma EmitExample(json: JsonCodec)
    ensures Consistent(Example())
    ensures Emit(json, Example(), true) == ExampleRows("x")
  {
    ExampleConsistent();
    ExampleOrder();
    ExampleEdges();
    EmitThree(json, Example(), 1, 0, Edge(1, 0, 1.0, map[]));
    ExampleRowsAre(json);
  }

  /**
   * Two nodes written in the order `i`, `j`, where `i` has the one edge `e`
   * and `j` none: `i`'s node row, the row of `e`, then `j`'s node row.
   */
  lemma EmitThree(json: JsonCodec, s: State, i: nat, j: nat, e: Edge)
    requires Consistent(s) && NodeOrder(s, true) == [i, j]
    requires i in s.nodes && NodeEdges(s, s.nodes[i], true) == [e]
    requires j in s.nodes && s.nodes[j].edge_map == NoEdges
    ensures e.rel < |s.edge_rels|
    ensures Emit(json, s, true) == [NodeRow(json, s.nodes[i]), EdgeRow(json, s, s.nodes[i], e, 0), NodeRow(json, s.nodes[j])]
  {
    EmitTwo(json, s, i, j, true);
    BlockOneEdge(json, s, i, true, e);
    BlockNoEdge(json, s, j, true);
  }

  lemma ExampleRowsAre(json: JsonCodec)
    ensures 1 < |Example().edge_rels|
    ensures var s := Example(); var rows := ExampleRows("x");
      && rows == [NodeRow(json, s.nodes[1]), EdgeRow(json, s, s.nodes[1], Edge(1, 0, 1.0, map[]), 0), NodeRow(json, s.nodes[0])]
  {
    var s := Example();
    assert EncodeLabels(["x"]) == "x" && EncodeLabels(["a"]) == "a";
    assert NameOf(s)(0) == "B";
  }

  // ------------------------------------------------------------------
  // Reading the sorted rows back

  /** The partition after A's node row: A alone, without edges. */
  function AfterA(): State
  {
    State(1, map[0 := Node(0, "A", BASED_LOCAL, false, ["a"], 1.0, map[], NoEdges)], map["A" := 0], [EMPTY_STRING])
  }

  lemma ReadNodeA(json: JsonCodec)
    ensures Consistent(Fresh)
    ensures IngestRow(json, Fresh, None, 0, ExampleRows("x")[0]) == Outcome(AfterA(), Ok(Some(0)))
  {
    var row := ExampleRows("x")[0];
    assert DecodeLabels("a") == ["a"] by {
      assert EncodeLabels(["a"]) == "a";
      LabelSetRoundTrip(["a"]);
    }
    var n := PopulateNode(json, Fresh, row);
    assert n.result.Ok?;
  }

  /** The edge row from A to B: B is unseen, so a placeholder is stored for it. */
  lemma ReadEdge(json: JsonCodec)
    requires Consistent(AfterA())
    ensures IngestRow(json, AfterA(), Some(0), 1, ExampleRows("x")[1]) == Outcome(Reread(), Ok(Some(0)))
  {
    var s := AfterA();
    var row := ExampleRows("x")[1];
    var d := DestinationNode(s, row);
    ReadDestination(row);
    ReadAttach(json, d.state, row, 0, 1);
    RereadNodes(d.state.nodes);
  }

  /** After the placeholder, A with its edge and the placeholder B are exactly what was read. */
  lemma RereadNodes(nodes: map<nat, Node>)
    requires nodes == AfterA().nodes[1 := Placeholder(1, "B", 1.0, false)]
    ensures nodes[0 := nodes[0].(edge_map := FirstGroup(Edge(1, 1, 1.0, map[])))] == Reread().nodes
  {
    var m := nodes[0 := nodes[0].(edge_map := FirstGroup(Edge(1, 1, 1.0, map[])))];
    assert m.Keys == {0, 1} == Reread().nodes.Keys;
    assert m[1] == Reread().nodes[1];
  }

  /** The edge map holding just `e`, in its own relation group. */
  function FirstGroup(e: Edge): EdgeMap
  {
    EdgeMap([e.rel], map[e.rel := [e]])
  }

  /**
   * An edge row with relation `r` on a partition whose only relation is the
   * blank one, from a node without edges: `r` is interned at index 1 and the
   * edge opens the node's first group.
   */
  lemma ReadAttach(json: JsonCodec, d: State, row: Row, src: nat, dst: nat)
    requires Consistent(d) && src in d.nodes && dst < d.next_node
    requires d.edge_rels == [EMPTY_STRING] && d.nodes[src].edge_map == NoEdges
    requires row.rel_name == Some("r") && row.props == EMPTY_STRING && row.truth == 1.0
    ensures var e := Edge(1, dst, 1.0, map[]);
      AttachEdge(json, d, row, src, dst) ==
      Outcome(d.(edge_rels := [EMPTY_STRING, "r"], nodes := d.nodes[src := d.nodes[src].(edge_map := FirstGroup(e))]), Ok(e))
  {
    var o := AttachEdge(json, d, row, src, dst);
    var e := Edge(1, dst, 1.0, map[]);
    assert "r" !in d.edge_rels;
    assert LoadProps(json, row.props) == Some(map[]);
    assert o.result.Ok?;
    assert o.result.value.rel == 1 by {
      assert o.state.edge_rels == [EMPTY_STRING, "r"];
    }
    assert o.result.value == e;
    FirstEdge(d.nodes[src], e);
  }

  /** A node's first edge opens its first relation group. */
  lemma FirstEdge(a: Node, e: Edge)
    requires a.edge_map == NoEdges
    ensures a.AddEdge(e) == a.(edge_map := FirstGroup(e))
  {
    assert NoEdges.ListFor(e.rel) == [];
    assert NoEdges.rels + [e.rel] == [e.rel] && [] + [e] == [e];
    assert Appended(a.edge_map, e) == FirstGroup(e);
  }

  /** B's own row comes last: B is already stored, so the row changes nothing. */
  lemma ReadNodeB(json: JsonCodec)
    requires Consistent(Reread())
    ensures IngestRow(json, Reread(), Some(0), 2, ExampleRows("x")[2]) == Outcome(Reread(), Ok(Some(1)))
  {
  }

  /** The placeholder for B, under the next id. */
  lemma ReadDestination(row: Row)
    requires Consistent(AfterA()) && row == ExampleRows("x")[1]
    ensures DestinationNode(AfterA(), row) ==
      Outcome(State(2, AfterA().nodes[1 := Placeholder(1, "B", 1.0, false)], map["A" := 0, "B" := 1], [EMPTY_STRING]), Ok(1))
  {
    var s := AfterA();
    var c := CreateNodeName(s, "B");
    assert c == Outcome(s.(node_names := s.node_names["B" := 1], next_node := 2), Ok(1));
  }

  /** Reading the three sorted rows into a fresh partition gives `Reread`, with B active. */
  lemma ReadRows(json: JsonCodec)
    ensures Consistent(Fresh)
    ensures Ingest(json, Fresh, None, Enumerate(ExampleRows("x"))) == Outcome(Reread(), Ok(Some(1)))
  {
    var x := ExampleRows("x");
    ReadNodeA(json);
    ReadEdge(json);
    ReadNodeB(json);
    IngestThree(json, Fresh, None, Enumerate(x), AfterA(), Some(0), Reread(), Some(0), Reread(), Some(1));
  }

  // ------------------------------------------------------------------
  // Where the example comes from

  /** The rows that build `Example`: B's node row, A's node row, then A's edge to B. */
  function OriginalRows(): seq<Row>
  {
    [ExampleRows("x")[2], ExampleRows("x")[0], ExampleRows("x")[1]]
  }

  /** The partition after B's node row: B alone, without edges. */
  function AfterB(): State
  {
    State(1, map[0 := Example().nodes[0]], map["B" := 0], [EMPTY_STRING])
  }

  /** The partition after A's node row as well: A without its edge. */
  function AfterBA(): State
  {
    State(2, map[0 := Example().nodes[0], 1 := Example().nodes[1].(edge_map := NoEdges)], map["B" := 0, "A" := 1], [EMPTY_STRING])
  }

  /** Reading B's node row, then A's, then the edge row stores `Example`, with A active. */
  lemma ReadOriginal(json: JsonCodec)
    ensures Consistent(Fresh)
    ensures Ingest(json, Fresh, None, Enumerate(OriginalRows())) == Outcome(Example(), Ok(Some(1)))
  {
    ReadFirstB(json);
    ReadSecondA(json);
    ReadOriginalEdge(json);
    IngestThree(json, Fresh, None, Enumerate(OriginalRows()), AfterB(), Some(0), AfterBA(), Some(1), Example(), Some(1));
  }

  lemma ReadFirstB(json: JsonCodec)
    ensures Consistent(Fresh)
    ensures IngestRow(json, Fresh, None, 0, OriginalRows()[0]) == Outcome(AfterB(), Ok(Some(0)))
  {
    var row := OriginalRows()[0];
    assert DecodeLabels("x") == ["x"] by {
      assert EncodeLabels(["x"]) == "x";
      LabelSetRoundTrip(["x"]);
    }
    var n := PopulateNode(json, Fresh, row);
    assert n.result.Ok?;
  }

  lemma ReadSecondA(json: JsonCodec)
    requires Consistent(AfterB())
    ensures IngestRow(json, AfterB(), Some(0), 1, OriginalRows()[1]) == Outcome(AfterBA(), Ok(Some(1)))
  {
    var s, row := AfterB(), OriginalRows()[1];
    assert DecodeLabels("a") == ["a"] by {
      assert EncodeLabels(["a"]) == "a";
      LabelSetRoundTrip(["a"]);
    }
    var n := PopulateNode(json, s, row);
    assert n.result.Ok?;
    var c := CreateNodeName(s, "A");
    assert c == Outcome(s.(node_names := s.node_names["A" := 1], next_node := 2), Ok(1));
    assert n.state.nodes == AfterBA().nodes;
  }

  /** The edge row from A to B: B is already stored, so only the relation and the edge are added. */
  lemma ReadOriginalEdge(json: JsonCodec)
    requires Consistent(AfterBA())
    ensures IngestRow(json, AfterBA(), Some(1), 2, OriginalRows()[2]) == Outcome(Example(), Ok(Some(1)))
  {
    var s, row := AfterBA(), OriginalRows()[2];
    assert DestinationNode(s, row) == Outcome(s, Ok(0));
    ReadAttach(json, s, row, 1, 0);
    ExampleNodes(s.nodes);
  }

  /** A with its edge to B, beside B, are the nodes of `Example`. */
  lemma ExampleNodes(nodes: map<nat, Node>)
    requires nodes == AfterBA().nodes
    ensures nodes[1 := nodes[1].(edge_map := FirstGroup(Edge(1, 0, 1.0, map[])))] == Example().nodes
  {
    var m := nodes[1 := nodes[1].(edge_map := FirstGroup(Edge(1, 0, 1.0, map[])))];
    assert m.Keys == {0, 1} == Example().nodes.Keys;
    assert m[0] == Example().nodes[0];
  }

  /** Three rows, each read successfully, are read in turn. */
  lemma IngestThree(json: JsonCodec, s0: State, a0: Option<nat>, rows: seq<(nat, Row)>,
                    s1: State, a1: Option<nat>, s2: State, a2: Option<nat>, s3: State, a3: Option<nat>)
    requires Consistent(s0) && a0 == None && |rows| == 3
    requires IngestRow(json, s0, a0, rows[0].0, rows[0].1) == Outcome(s1, Ok(a1))
    requires IngestRow(json, s1, a1, rows[1].0, rows[1].1) == Outcome(s2, Ok(a2))
    requires IngestRow(json, s2, a2, rows[2].0, rows[2].1) == Outcome(s3, Ok(a3))
    ensures Ingest(json, s0, a0, rows) == Outcome(s3, Ok(a3))
  {
    IngestStep(json, s0, a0, rows, s1, a1);
    IngestStep(json, s1, a1, rows[1..], s2, a2);
    IngestStep(json, s2, a2, rows[1..][1..], s3, a3);
    assert rows[1..][1..][1..] == [];
  }

  /** A row read successfully hands its state and active node on to the rest of the rows. */
  lemma IngestStep(json: JsonCodec, s: State, a: Option<nat>, rows: seq<(nat, Row)>, s1: State, a1: Option<nat>)
    requires Consistent(s) && (a.Some? ==> a.value in s.nodes) && |rows| > 0
    requires IngestRow(json, s, a, rows[0].0, rows[0].1) == Outcome(s1, Ok(a1))
    ensures Consistent(s1) && (a1.Some? ==> a1.value in s1.nodes)
    ensures Ingest(json, s, a, rows) == Ingest(json, s1, a1, rows[1..])
  {
  }

  /** Sorted by name, A (id 0) is written before B (id 1). */
  lemma RereadOrder()
    ensures NodeOrder(Reread(), true) == [0, 1]
  {
    var s := Reread();
    var less := KeyLess(NameOf(s));
    assert Ids(2) == [0, 1];
    assert !less(1, 0) by { assert NameOf(s)(1) == "B" && NameOf(s)(0) == "A"; }
    assert SortBy([1], less) == [1];
    assert [0, 1][1..] == [1];
    assert Insert(0, [1], less) == [0, 1];
  }

  /** A's edges after reading back, sorted: the one edge to B, now id 1. */
  lemma RereadEdges()
    ensures NodeEdges(Reread(), Reread().nodes[0], true) == [Edge(1, 1, 1.0, map[])]
  {
    var s := Reread();
    var a := s.nodes[0];
    var e := Edge(1, 1, 1.0, map[]);
    assert GroupOrder(a, true) == [1];
    assert Ordered(s, [e], true) == [e];
    assert [1][..0] == [];
  }

  /** Written again, sorted: the same rows, except that B's row has lost its label. */
  lemma EmitReread(json: JsonCodec)
    ensures Consistent(Reread())
    ensures Emit(json, Reread(), true) == ExampleRows(EMPTY_STRING)
  {
    RereadConsistent();
    RereadOrder();
    RereadEdges();
    EmitThree(json, Reread(), 0, 1, Edge(1, 1, 1.0, map[]));
    RereadRowsAre(json);
  }

  lemma RereadRowsAre(json: JsonCodec)
    ensures 1 < |Reread().edge_rels|
    ensures var s := Reread(); var rows := ExampleRows(EMPTY_STRING);
      && rows == [NodeRow(json, s.nodes[0]), EdgeRow(json, s, s.nodes[0], Edge(1, 1, 1.0, map[]), 0), NodeRow(json, s.nodes[1])]
  {
    var s := Reread();
    assert EncodeLabels([]) == EMPTY_STRING && EncodeLabels(["a"]) == "a";
    assert NameOf(s)(1) == "B";
  }

  /**
   * The sorted round trip fails: `Example` is what reading `OriginalRows`
   * gives; writing it sorted, reading the rows into a fresh partition and
   * writing that sorted again gives different rows. Reading succeeds, but
   * B's node row, which carries the label `x`, comes after the edge that
   * already stored a placeholder for B.
   */
  lemma SortedRoundTripBreaks(json: JsonCodec)
    ensures Consistent(Example()) && Consistent(Fresh) && Consistent(Reread())
    ensures Ingest(json, Fresh, None, Enumerate(OriginalRows())) == Outcome(Example(), Ok(Some(1)))
    ensures Emit(json, Example(), true) == ExampleRows("x")
    ensures Ingest(json, Fresh, None, Enumerate(ExampleRows("x"))) == Outcome(Reread(), Ok(Some(1)))
    ensures Emit(json, Reread(), true) == ExampleRows(EMPTY_STRING)
    ensures var o := Ingest(json, Fresh, None, Enumerate(Emit(json, Example(), true)));
      o.result.Ok? && Emit(json, o.state, true) != Emit(json, Example(), true)
  {
    ReadOriginal(json);
    EmitExample(json);
    ReadRows(json);
    EmitReread(json);
    assert ExampleRows(EMPTY_STRING)[2] != ExampleRows("x")[2];
  }
}
