/**
 * The `Partition` class of pynock/pynock.py as an object whose methods update
 * its fields in place. Every method is proved to leave the partition exactly
 * as the corresponding function of PynockIngest, PynockEmit or PynockRdf
 * says, so the properties proved there hold of the object.
 *
 * Nodes are kept as values in the `nodes` map: `add_edge` on the active node
 * is `AddEdge` on the entry stored under its id.
 */
module Pynock {
  import opened Strs
  import opened Graph
  import opened PynockIngest
  import opened PynockEmit
  import opened PynockRdf

  class Partition {
    var next_node: nat
    var nodes: map<nat, Node>
    var node_names: map<string, nat>
    var edge_rels: seq<string>
    /** The JSON codec the property strings are read and written with. */
    const json: JsonCodec

    /** The fields as a value. */
    function Abs(): State
      reads this
    {
      State(next_node, nodes, node_names, edge_rels)
    }

    /** The invariant every successful operation keeps. */
    ghost predicate Valid()
      reads this
    {
      Consistent(Abs())
    }

    /** A new partition: no nodes, and only the blank relation. */
    constructor(json: JsonCodec)
      ensures this.json == json && Abs() == Fresh && Valid()
    {
      this.json := json;
      next_node := 0;
      nodes := map[];
      node_names := map[];
      edge_rels := [EMPTY_STRING];
      new;
      FreshConsistent();
    }

    /** `lookup_node`: the node stored under a registered name, or None. */
    function LookupNode(name: string): (r: Option<Node>)
      reads this
      requires Valid()
      ensures r.Some? <==> name in node_names
      ensures r.Some? ==> r.value.name == name && r.value.node_id == node_names[name]
      ensures r.Some? ==> node_names[name] in nodes && nodes[node_names[name]] == r.value
    {
      if name in node_names then
        StoredName(Abs(), name);
        Some(nodes[node_names[name]])
      else None
    }

    /** `create_node_name`. */
    method CreateNodeName(name: string) returns (r: Result<nat>)
      modifies this
      ensures Outcome(Abs(), r) == PynockIngest.CreateNodeName(old(Abs()), name)
    {
      if name == EMPTY_STRING {
        return Err(EmptyName);
      }
      if name in node_names {
        return Ok(node_names[name]);
      }
      var node_id := next_node;
      node_names := node_names[name := node_id];
      next_node := next_node + 1;
      return Ok(node_id);
    }

    /** `get_edge_rel`: a scan of `edge_rels`, after appending when asked to. */
    method GetEdgeRel(rel_name: string, create: bool) returns (r: int)
      modifies this
      ensures Step(Abs(), r) == PynockIngest.GetEdgeRel(old(Abs()), rel_name, create)
    {
      if rel_name !in edge_rels {
        if create {
          edge_rels := edge_rels + [rel_name];
        } else {
          return NOT_FOUND;
        }
      }
      r := Find(edge_rels, rel_name);
    }

    /** `add_node`. */
    method AddNode(node: Node)
      modifies this
      ensures Abs() == PynockIngest.AddNode(old(Abs()), node)
    {
      nodes := nodes[node.node_id := node];
    }

    /** `Node.add_edge` on the node stored under `src`. */
    method AddEdge(src: nat, e: Edge)
      requires src in nodes && nodes[src].edge_map.Valid()
      modifies this
      ensures Abs() == old(Abs()).(nodes := old(nodes)[src := old(nodes)[src].AddEdge(e)])
    {
      var node := nodes[src];
      var m := node.edge_map;
      if e.rel !in m.lists {
        m := m.(rels := m.rels + [e.rel], lists := m.lists[e.rel := []]);
      }
      m := m.(lists := m.lists[e.rel := m.lists[e.rel] + [e]]);
      assert m == Appended(node.edge_map, e);
      nodes := nodes[src := node.(edge_map := m)];
    }

    /** `populate_node`. */
    method PopulateNode(row: Row) returns (r: Result<Node>)
      requires Valid()
      modifies this
      ensures Outcome(Abs(), r) == PynockIngest.PopulateNode(json, old(Abs()), row)
    {
      var src_node := LookupNode(row.src_name);
      if src_node.Some? {
        return Ok(src_node.value);
      }
      var node_id := CreateNodeName(row.src_name);
      if node_id.Err? {
        return Err(node_id.error);
      }
      if row.labels.None? {
        return Err(MissingLabels);
      }
      var prop_map := LoadProps(json, row.props);
      if prop_map.None? {
        return Err(MalformedProps);
      }
      var node := Node(node_id.value, row.src_name, row.shadow, row.is_rdf, DecodeLabels(row.labels.value),
                       row.truth, prop_map.value, NoEdges);
      AddNode(node);
      return Ok(node);
    }

    /** `populate_edge`, adding to the node stored under `src`. */
    method PopulateEdge(row: Row, src: nat) returns (r: Result<Edge>)
      requires Valid() && src in nodes
      modifies this
      ensures Outcome(Abs(), r) == PynockIngest.PopulateEdge(json, old(Abs()), row, src)
    {
      ghost var s := Abs();
      ghost var d := DestinationNode(s, row);
      var dst_node := if row.dst_name.Some? then LookupNode(row.dst_name.value) else None;
      var dst_id: nat;
      if dst_node.Some? {
        dst_id := dst_node.value.node_id;
      } else {
        var dst_name := if row.dst_name.Some? then row.dst_name.value else EMPTY_STRING;
        var c := CreateNodeName(dst_name);
        if c.Err? {
          return Err(c.error);
        }
        dst_id := c.value;
        AddNode(Placeholder(dst_id, dst_name, row.truth, row.is_rdf));
      }
      assert d == Outcome(Abs(), Ok(dst_id));
      assert NodeFits(Abs(), src, nodes[src]);
      if row.rel_name.None? {
        return Err(MissingRelation);
      }
      var rel := GetEdgeRel(row.rel_name.value, true);
      var prop_map := LoadProps(json, row.props);
      if prop_map.None? {
        return Err(MalformedProps);
      }
      var edge := Edge(rel as nat, dst_id, row.truth, prop_map.value);
      AddEdge(src, edge);
      return Ok(edge);
    }

    /** One pass of the `parse_rows` loop: the new active node, or the failure. */
    method ParseRow(active: Option<nat>, row_num: nat, row: Row) returns (r: Result<Option<nat>>)
      requires Valid() && (active.Some? ==> active.value in nodes)
      modifies this
      ensures Outcome(Abs(), r) == IngestRow(json, old(Abs()), active, row_num, row)
    {
      if row.edge_id < 0 {
        var node := PopulateNode(row);
        if node.Err? {
          return Err(node.error);
        }
        return Ok(Some(node.value.node_id));
      } else if active.None? {
        return Err(NoActiveNode);
      } else if row.src_name != nodes[active.value].name {
        return Err(OutOfSequence(row_num, row.src_name));
      } else {
        var edge := PopulateEdge(row, active.value);
        if edge.Err? {
          return Err(edge.error);
        }
        return Ok(active);
      }
    }

    /**
     * `parse_rows`: the rows in order, stopping at the first failure. The
     * result is the active node at the end.
     */
    method ParseRows(rows: seq<(nat, Row)>) returns (r: Result<Option<nat>>)
      requires Valid()
      modifies this
      ensures Outcome(Abs(), r) == Ingest(json, old(Abs()), None, rows)
    {
      var active: Option<nat> := None;
      var i := 0;
      while i < |rows|
        invariant 0 <= i <= |rows|
        invariant Valid() && (active.Some? ==> active.value in nodes)
        invariant Ingest(json, Abs(), active, rows[i..]) == Ingest(json, old(Abs()), None, rows)
      {
        assert rows[i..][0] == rows[i] && rows[i..][1..] == rows[i + 1..];
        var step := ParseRow(active, rows[i].0, rows[i].1);
        if step.Err? {
          return step;
        }
        active := step.value;
        i := i + 1;
      }
      return Ok(active);
    }

    /**
     * `iter_gen_rows`: for each node (by name when sorting, by id
     * otherwise), its node row and then its edge rows.
     */
    method IterGenRows(sort: bool) returns (rows: seq<Row>)
      requires Valid()
      ensures rows == Emit(json, Abs(), sort)
    {
      var s := Abs();
      var order := NodeOrder(s, sort);
      OrderStored(s, sort);
      rows := BlocksRows(json, s, order, sort);
    }

    /**
     * `save_file_rdf`: the graph written for the partition. It holds the
     * triple of every edge stored on an RDF node.
     */
    method SaveFileRdf(sort: bool) returns (r: Result<set<Triple>>)
      requires Valid()
      ensures r == RdfTriples(Emit(json, Abs(), sort), None)
      ensures r == Ok(EdgeTriples(Abs()))
    {
      var rows := IterGenRows(sort);
      r := WalkRdf(rows);
      ExportOfEmit(json, Abs(), sort);
    }
  }

  /** The outer loop of `iter_gen_rows`: the block of each node of `order` in turn. */
  method BlocksRows(json: JsonCodec, s: State, order: seq<nat>, sort: bool) returns (rows: seq<Row>)
    requires Consistent(s) && forall k :: 0 <= k < |order| ==> order[k] in s.nodes
    ensures rows == Blocks(json, s, order, sort)
  {
    rows := [];
    var i := 0;
    while i < |order|
      invariant 0 <= i <= |order|
      invariant rows == Blocks(json, s, order[..i], sort)
    {
      var block := BlockRows(json, s, order[i], sort);
      BlocksSnoc(json, s, order, i, sort);
      rows := rows + block;
      i := i + 1;
    }
    assert order[..i] == order;
  }

  /** The body of the node loop of `iter_gen_rows`: the node row, then the edge rows. */
  method BlockRows(json: JsonCodec, s: State, id: nat, sort: bool) returns (rows: seq<Row>)
    requires Consistent(s) && id in s.nodes
    ensures rows == Block(json, s, id, sort)
  {
    var node := s.nodes[id];
    StoredRelsKnown(s, id);
    var more := NodeEdgeRows(json, s, node, sort);
    rows := [NodeRow(json, node)] + more;
  }

  /** Every edge on any of the map's lists names a known relation. */
  ghost predicate RelsKnown(s: State, m: EdgeMap)
  {
    forall r: nat, e :: e in m.ListFor(r) ==> e.rel < |s.edge_rels|
  }

  lemma StoredRelsKnown(s: State, id: nat)
    requires Consistent(s) && id in s.nodes
    ensures RelsKnown(s, s.nodes[id].edge_map)
  {
    var m := s.nodes[id].edge_map;
    assert NodeFits(s, id, s.nodes[id]);
    forall r: nat, e | e in m.ListFor(r) ensures e.rel < |s.edge_rels| {
      var q :| 0 <= q < |m.lists[r]| && m.lists[r][q] == e;
    }
  }

  /** The edges written for a node name known relations when its lists do. */
  lemma NodeEdgesKnown(s: State, node: Node, sort: bool)
    requires RelsKnown(s, node.edge_map)
    ensures forall k :: 0 <= k < |NodeEdges(s, node, sort)| ==> NodeEdges(s, node, sort)[k].rel < |s.edge_rels|
  {
    var es := NodeEdges(s, node, sort);
    EdgesOfGroupsMembers(s, node.edge_map, GroupOrder(node, sort), sort);
    forall k | 0 <= k < |es| ensures es[k].rel < |s.edge_rels| {
      assert es[k] in es;
    }
  }

  /**
   * The relation loop of `iter_gen_rows`: for each relation (by id when
   * sorting) the rows of that relation's edges (by destination name when
   * sorting), numbered by a counter running across the node's relations.
   */
  method NodeEdgeRows(json: JsonCodec, s: State, node: Node, sort: bool) returns (rows: seq<Row>)
    requires RelsKnown(s, node.edge_map)
    ensures forall k :: 0 <= k < |NodeEdges(s, node, sort)| ==> NodeEdges(s, node, sort)[k].rel < |s.edge_rels|
    ensures rows == EdgeRows(json, s, node, NodeEdges(s, node, sort), 0)
  {
    NodeEdgesKnown(s, node, sort);
    rows := [];
    ghost var done: seq<Edge> := [];
    var edge_id: nat := 0;
    var groups := GroupOrder(node, sort);
    var j := 0;
    while j < |groups|
      invariant 0 <= j <= |groups|
      invariant done == EdgesOfGroups(s, node.edge_map, groups[..j], sort)
      invariant forall q :: 0 <= q < |done| ==> done[q].rel < |s.edge_rels|
      invariant edge_id == |done|
      invariant rows == EdgeRows(json, s, node, done, 0)
    {
      var edges := Ordered(s, node.edge_map.ListFor(groups[j]), sort);
      GroupStep(json, s, node, groups, j, sort, done);
      var more := GroupRows(json, s, node, edges, edge_id);
      rows := rows + more;
      done := done + edges;
      edge_id := edge_id + |edges|;
      j := j + 1;
    }
    assert groups[..j] == groups;
  }

  /** One more relation's list continues the edge rows of the lists before it. */
  lemma GroupStep(json: JsonCodec, s: State, node: Node, groups: seq<nat>, j: nat, sort: bool, done: seq<Edge>)
    requires RelsKnown(s, node.edge_map) && j < |groups|
    requires done == EdgesOfGroups(s, node.edge_map, groups[..j], sort)
    requires forall q :: 0 <= q < |done| ==> done[q].rel < |s.edge_rels|
    ensures var edges := Ordered(s, node.edge_map.ListFor(groups[j]), sort);
      && (forall q :: 0 <= q < |edges| ==> edges[q].rel < |s.edge_rels|)
      && done + edges == EdgesOfGroups(s, node.edge_map, groups[..j + 1], sort)
      && (forall q :: 0 <= q < |done + edges| ==> (done + edges)[q].rel < |s.edge_rels|)
      && EdgeRows(json, s, node, done + edges, 0) == EdgeRows(json, s, node, done, 0) + EdgeRows(json, s, node, edges, |done|)
  {
    var edges := Ordered(s, node.edge_map.ListFor(groups[j]), sort);
    OrderedKnown(s, node.edge_map, groups[j], sort);
    var pre := groups[..j + 1];
    assert pre[..j] == groups[..j] && pre[j] == groups[j];
    assert EdgesOfGroups(s, node.edge_map, pre, sort) == done + edges;
    EdgeRowsAppend(json, s, node, done, edges, 0);
  }

  /** A relation's list, ordered for writing, names known relations when the lists do. */
  lemma OrderedKnown(s: State, m: EdgeMap, r: nat, sort: bool)
    requires RelsKnown(s, m)
    ensures var edges := Ordered(s, m.ListFor(r), sort);
      forall q :: 0 <= q < |edges| ==> edges[q].rel < |s.edge_rels|
  {
    var edges := Ordered(s, m.ListFor(r), sort);
    forall q | 0 <= q < |edges| ensures edges[q].rel < |s.edge_rels| {
      assert edges[q] in multiset(m.ListFor(r));
    }
  }

  /** The innermost loop of `iter_gen_rows`: one row per edge of a list, numbered from `start`. */
  method GroupRows(json: JsonCodec, s: State, node: Node, edges: seq<Edge>, start: nat) returns (rows: seq<Row>)
    requires forall q :: 0 <= q < |edges| ==> edges[q].rel < |s.edge_rels|
    ensures rows == EdgeRows(json, s, node, edges, start)
  {
    ghost var all := EdgeRows(json, s, node, edges, start);
    rows := [];
    var edge_id := start;
    var k := 0;
    while k < |edges|
      invariant 0 <= k <= |edges| && edge_id == start + k
      invariant rows == all[..k]
    {
      var row := EdgeRow(json, s, node, edges[k], edge_id);
      assert all[k] == row;
      assert all[..k + 1] == rows + [row];
      rows := rows + [row];
      edge_id := edge_id + 1;
      k := k + 1;
    }
    assert all[..k] == all;
  }

  /**
   * The row walk of `save_file_rdf`: RDF node rows set the current subject,
   * RDF edge rows add a triple under it, other rows are skipped.
   */
  method WalkRdf(rows: seq<Row>) returns (r: Result<set<Triple>>)
    ensures r == RdfTriples(rows, None)
  {
    var subj: Option<string> := None;
    var graph: set<Triple> := {};
    var i := 0;
    assert rows[i..] == rows;
    assert RdfTriples(rows, None).Ok? ==> {} + RdfTriples(rows, None).value == RdfTriples(rows, None).value;
    while i < |rows|
      invariant 0 <= i <= |rows|
      invariant RdfTriples(rows, None) == Union(Ok(graph), RdfTriples(rows[i..], subj))
    {
      var row := rows[i];
      assert rows[i..][0] == row && rows[i..][1..] == rows[i + 1..];
      if row.is_rdf {
        if row.edge_id < 0 {
          subj := Some(row.src_name);
        } else if subj.None? {
          return Err(MissingSubject);
        } else if row.rel_name.None? || row.dst_name.None? {
          return Err(MissingTerm);
        } else {
          var t := (subj.value, row.rel_name.value, row.dst_name.value);
          var rest := RdfTriples(rows[i + 1..], subj);
          assert rest.Ok? ==> graph + ({t} + rest.value) == (graph + {t}) + rest.value;
          graph := graph + {t};
        }
      }
      i := i + 1;
    }
    assert graph + {} == graph;
    return Ok(graph);
  }

  /** The blocks of one more node of the order. */
  lemma BlocksSnoc(json: JsonCodec, s: State, order: seq<nat>, i: nat, sort: bool)
    requires Consistent(s) && i < |order| && forall k :: 0 <= k < |order| ==> order[k] in s.nodes
    ensures Blocks(json, s, order[..i + 1], sort) == Blocks(json, s, order[..i], sort) + Block(json, s, order[i], sort)
  {
    assert order[..i + 1][..i] == order[..i];
  }
}
