/**
 * The `Partition` class of nock/nock.py as an object whose methods update
 * its fields in place. Every method is proved to leave the partition
 * exactly as the corresponding function of NockIngest says, so the
 * properties proved there hold of the object.
 *
 * As in the pynock model, nodes are values in the `nodes` map and the
 * current node of `load_rows` is carried as its id.
 */
module Nock {
  import opened Strs
  import opened Graph
  import opened NockIngest

  class Partition {
    var next_node: nat
    var nodes: map<nat, Node>
    var node_names: map<string, nat>
    var edge_rels: seq<string>
    /** The JSON codec the property strings are read with. */
    const json: JsonCodec

    /** The fields as a value. */
    function Abs(): State
      reads this
    {
      State(next_node, nodes, node_names, edge_rels)
    }

    /** The invariant every operation keeps. */
    ghost predicate Valid()
      reads this
    {
      NockValid(Abs())
    }

    /** A new partition: no nodes, and only the blank relation. */
    constructor(json: JsonCodec)
      ensures this.json == json && Abs() == Fresh && Valid()
    {
      this.json := json;
      next_node := 0;
      nodes := map[];
      node_names := map[];
      edge_rels := [EMPTY_STRING];
      new;
      FreshNockValid();
    }

    /** `create_node`: look the name up, or register it under the next id. */
    method CreateNode(node_name: string) returns (node_id: nat)
      modifies this
      ensures Step(Abs(), node_id) == NockIngest.CreateNode(old(Abs()), node_name)
    {
      if node_name in node_names {
        node_id := node_names[node_name];
      } else {
        node_id := next_node;
        node_names := node_names[node_name := node_id];
        next_node := next_node + 1;
      }
    }

    /** `get_edge_rel`: append an unseen label, whatever `create` says, then scan for it. */
    method GetEdgeRel(rel_name: string, create: bool) returns (r: nat)
      modifies this
      ensures Step(Abs(), r) == NockIngest.GetEdgeRel(old(Abs()), rel_name, create)
    {
      if rel_name !in edge_rels {
        edge_rels := edge_rels + [rel_name];
      }
      var i := Find(edge_rels, rel_name);
      r := i;
    }

    /**
     * `populate_node`: build a fresh node from the row, register its name
     * and store it under its id, over whatever was stored there.
     */
    method PopulateNode(row: Row) returns (r: Result<Node>)
      requires Valid()
      modifies this
      ensures Outcome(Abs(), r) == NockIngest.PopulateNode(json, old(Abs()), row)
    {
      if row.labels.None? {
        return Err(MissingLabels);
      }
      var label_set := DecodeLabels(row.labels.value);
      var prop_map := LoadProps(json, row.props);
      if prop_map.None? {
        return Err(MalformedProps);
      }
      var node_id := CreateNode(row.src_name);
      var node := Node(node_id, row.src_name, row.shadow, row.is_rdf, label_set, row.truth, prop_map.value, NoEdges);
      nodes := nodes[node_id := node];
      return Ok(node);
    }

    /**
     * `populate_edge`: intern the relation, register the destination name,
     * decode the properties, and append the edge to the list of its
     * relation on the node stored under `src`.
     */
    method PopulateEdge(row: Row, src: nat) returns (r: Result<Edge>)
      requires Valid() && src in nodes
      modifies this
      ensures Outcome(Abs(), r) == NockIngest.PopulateEdge(json, old(Abs()), row, src)
    {
      assert NodeFits(Abs(), src, nodes[src]);
      if row.rel_name.None? {
        return Err(MissingRelation);
      }
      var rel := GetEdgeRel(row.rel_name.value, true);
      if row.dst_name.None? {
        return Err(MissingDestination);
      }
      var dst_id := CreateNode(row.dst_name.value);
      assert Outcome(Abs(), Ok((rel, dst_id))) == EdgeEnds(old(Abs()), row);
      var prop_map := LoadProps(json, row.props);
      if prop_map.None? {
        return Err(MalformedProps);
      }
      var edge := Edge(rel, dst_id, row.truth, prop_map.value);
      AppendEdge(src, edge);
      return Ok(edge);
    }

    /** The append at the end of `populate_edge`: a new list for an unseen relation, then the edge at its end. */
    method AppendEdge(src: nat, edge: Edge)
      requires Valid() && src in nodes && EdgeFits(Abs(), edge)
      modifies this
      ensures Abs() == NockIngest.AppendEdge(old(Abs()), src, edge)
    {
      var node := nodes[src];
      assert NodeFits(Abs(), src, node);
      var m := node.edge_map;
      if edge.rel !in m.lists {
        m := m.(rels := m.rels + [edge.rel], lists := m.lists[edge.rel := []]);
      }
      m := m.(lists := m.lists[edge.rel := m.lists[edge.rel] + [edge]]);
      assert m == Appended(node.edge_map, edge);
      nodes := nodes[src := node.(edge_map := m)];
    }

    /** One pass of the row loop of `load_rows`: the new current node, or the failure. */
    method LoadRow(active: Option<nat>, row: Row) returns (r: Result<Option<nat>>)
      requires Valid() && (active.Some? ==> active.value in nodes)
      modifies this
      ensures Outcome(Abs(), r) == NockIngest.LoadRow(json, old(Abs()), active, row)
    {
      if row.edge_id < 0 {
        var node := PopulateNode(row);
        if node.Err? {
          return Err(node.error);
        }
        return Ok(Some(node.value.node_id));
      } else if active.None? {
        return Err(NoActiveNode);
      } else if row.src_name != nodes[active.value].name {
        return Err(AssertionFailed);
      } else {
        var edge := PopulateEdge(row, active.value);
        if edge.Err? {
          return Err(edge.error);
        }
        return Ok(active);
      }
    }

    /** The inner loop of `load_rows`: the rows of one row group, from current node `active`. */
    method LoadRowGroup(active: Option<nat>, rows: seq<Row>) returns (r: Result<Option<nat>>)
      requires Valid() && (active.Some? ==> active.value in nodes)
      modifies this
      ensures Outcome(Abs(), r) == Load(json, old(Abs()), active, rows)
    {
      ghost var s0 := Abs();
      var current := active;
      var i := 0;
      while i < |rows|
        invariant 0 <= i <= |rows|
        invariant Valid() && (current.Some? ==> current.value in nodes)
        invariant Load(json, Abs(), current, rows[i..]) == Load(json, s0, active, rows)
      {
        assert rows[i..][0] == rows[i] && rows[i..][1..] == rows[i + 1..];
        var step := LoadRow(current, rows[i]);
        if step.Err? {
          return step;
        }
        current := step.value;
        i := i + 1;
      }
      return Ok(current);
    }

    /**
     * `load_rows`: every row of every row group in order, stopping at the
     * first failure. The current node is a local of the whole method, so it
     * carries over from one row group to the next.
     */
    method LoadRows(groups: seq<seq<Row>>) returns (r: Result<Option<nat>>)
      requires Valid()
      modifies this
      ensures Outcome(Abs(), r) == LoadGroups(json, old(Abs()), None, groups)
    {
      ghost var s0 := Abs();
      var active: Option<nat> := None;
      var g := 0;
      while g < |groups|
        invariant 0 <= g <= |groups|
        invariant Valid() && (active.Some? ==> active.value in nodes)
        invariant LoadGroups(json, Abs(), active, groups[g..]) == LoadGroups(json, s0, None, groups)
      {
        assert groups[g..][0] == groups[g] && groups[g..][1..] == groups[g + 1..];
        var step := LoadRowGroup(active, groups[g]);
        if step.Err? {
          return step;
        }
        active := step.value;
        g := g + 1;
      }
      return Ok(active);
    }
  }
}
